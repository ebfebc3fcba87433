/** The multi form field (`multiFormField` and `useMultiFormField`): a family
    keyed by the string form of integer ids, an id counter and the ordered
    list of live ids. */
module MultiField {
  import opened Wrappers
  import opened Field
  import opened Table
  import opened Numbers
  import opened Forms
  import opened Families

  /** `usedIds.filter((id) => id !== Number(removedId))`; NaN (None) equals
      no id. */
  function WithoutId(ids: seq<nat>, n: Option<int>): (r: seq<nat>)
    ensures |r| <= |ids|
    ensures n.None? || n.value < 0 ==> r == ids
  {
    if ids == [] then []
    else (if n == Some(ids[0] as int) then [] else [ids[0]]) + WithoutId(ids[1..], n)
  }

  /** The filter keeps exactly the ids different from `n`. */
  lemma {:induction false} WithoutIdMembers(ids: seq<nat>, n: Option<int>, x: nat)
    ensures x in WithoutId(ids, n) <==> x in ids && n != Some(x as int)
  {
    if ids != [] {
      WithoutIdMembers(ids[1..], n, x);
      assert ids == [ids[0]] + ids[1..];
    }
  }

  /** Filtering distributes over concatenation. */
  lemma {:induction false} WithoutIdAppend(a: seq<nat>, b: seq<nat>, n: Option<int>)
    ensures WithoutId(a + b, n) == WithoutId(a, n) + WithoutId(b, n)
  {
    if a == [] {
      assert a + b == b;
    } else {
      var ab := a + b;
      assert ab[0] == a[0] && ab[1..] == a[1..] + b;
      var head := if n == Some(a[0] as int) then [] else [a[0]];
      assert WithoutId(ab, n) == head + WithoutId(a[1..] + b, n);
      assert WithoutId(a, n) == head + WithoutId(a[1..], n);
      WithoutIdAppend(a[1..], b, n);
    }
  }

  /** Removing a held id of a duplicate-free list drops exactly that position
      and keeps the order of the rest. */
  lemma {:induction false} WithoutIdExact(ids: seq<nat>, i: nat)
    requires NoDup(ids) && i < |ids|
    ensures WithoutId(ids, Some(ids[i] as int)) == ids[..i] + ids[i + 1..]
  {
    var rest := ids[1..];
    assert NoDup(rest) by {
      forall j, k | 0 <= j < k < |rest| ensures rest[j] != rest[k] {
        assert rest[j] == ids[j + 1] && rest[k] == ids[k + 1];
      }
    }
    if i == 0 {
      assert ids[0] !in rest by {
        forall j | 0 <= j < |rest| ensures rest[j] != ids[0] { assert rest[j] == ids[j + 1]; }
      }
      WithoutIdAbsent(rest, ids[0]);
    } else {
      assert ids[0] != ids[i];
      WithoutIdExact(rest, i - 1);
      assert rest[i - 1] == ids[i];
      assert ids[..i] == [ids[0]] + rest[..i - 1];
      assert ids[i + 1..] == rest[i..];
    }
  }

  /** Filtering out an id that does not occur changes nothing. */
  lemma {:induction false} WithoutIdAbsent(ids: seq<nat>, id: nat)
    requires id !in ids
    ensures WithoutId(ids, Some(id as int)) == ids
  {
    if ids != [] {
      WithoutIdAbsent(ids[1..], id);
    }
  }

  /** Filtering preserves "no duplicates" and "below the counter". */
  lemma {:induction false} WithoutIdKeepsInvariant(ids: seq<nat>, n: Option<int>, counter: nat)
    requires NoDup(ids) && forall i :: 0 <= i < |ids| ==> ids[i] < counter
    ensures var r := WithoutId(ids, n); NoDup(r) && forall i :: 0 <= i < |r| ==> r[i] < counter
  {
    if ids != [] {
      WithoutIdKeepsInvariant(ids[1..], n, counter);
      var rest := WithoutId(ids[1..], n);
      assert ids[0] !in ids[1..];
      WithoutIdMembers(ids[1..], n, ids[0]);
      assert ids[0] !in rest;
      forall x | x in rest ensures x < counter {
        WithoutIdMembers(ids[1..], n, x);
      }
    }
  }

  /** `ids.map((id) => id.toString())` */
  function IdStrings(ids: seq<nat>): (r: seq<string>)
    ensures |r| == |ids|
    ensures forall i :: 0 <= i < |ids| ==> r[i] == IntToString(ids[i])
  {
    if ids == [] then [] else [IntToString(ids[0])] + IdStrings(ids[1..])
  }

  lemma IdsRoundTrip(ids: seq<nat>)
    ensures forall i :: 0 <= i < |ids| ==> NumberOf(IntToString(ids[i])) == Some(ids[i] as int)
  {
    forall i | 0 <= i < |ids| ensures NumberOf(IntToString(ids[i])) == Some(ids[i] as int) {
      NumberOfIntToString(ids[i]);
    }
  }

  /** `removeField(fieldIds[i])` takes out exactly the i-th live id. */
  lemma RemoveByFieldId(ids: seq<nat>, i: nat)
    requires NoDup(ids) && i < |ids|
    ensures WithoutId(ids, NumberOf(IdStrings(ids)[i])) == ids[..i] + ids[i + 1..]
  {
    NumberOfIntToString(ids[i]);
    WithoutIdExact(ids, i);
  }

  /** Under the default equality, the parameter of each of the first `n`
      ids is stored with the member `fs` lists for it. */
  ghost predicate StoredUnder(entries: seq<Entry<FormFieldAtom>>, ids: seq<nat>, fs: seq<FormFieldAtom>, n: nat)
    requires n <= |ids| && n <= |fs|
  {
    forall j :: 0 <= j < n ==>
      var k := KeyIndex(entries, IntToString(ids[j]));
      k.Some? && entries[k.value].field == fs[j]
  }

  /** Distinct ids give distinct params. */
  lemma IdStringsDistinct(ids: seq<nat>)
    requires NoDup(ids)
    ensures NoDup(IdStrings(ids))
  {
    forall i, j | 0 <= i < j < |ids| ensures IdStrings(ids)[i] != IdStrings(ids)[j] {
      if IdStrings(ids)[i] == IdStrings(ids)[j] {
        IntToStringInjective(ids[i], ids[j]);
      }
    }
  }

  /** Each member a lookup made new is at the initial state: `init`, clean
      and without a ref. */
  ghost predicate Initial(fs: seq<FormFieldAtom>, made: seq<bool>, init: Value)
    reads set j | 0 <= j < |fs| :: fs[j]
  {
    |made| == |fs| && forall j | 0 <= j < |fs| && made[j] :: fs[j].value == init && !fs[j].isDirty && fs[j].ref.None?
  }

  lemma InitialStep(fs: seq<FormFieldAtom>, made: seq<bool>, init: Value, f: FormFieldAtom, isNew: bool)
    requires Initial(fs, made, init)
    requires isNew ==> f.value == init && !f.isDirty && f.ref.None?
    ensures Initial(fs + [f], made + [isNew], init)
  {
    forall j | 0 <= j < |fs| + 1 && (made + [isNew])[j]
      ensures (fs + [f])[j].value == init && !(fs + [f])[j].isDirty && (fs + [f])[j].ref.None?
    {
      if j < |fs| {
        assert (made + [isNew])[j] == made[j] && (fs + [f])[j] == fs[j];
      }
    }
  }

  /** No member a lookup made new was a field of the form before the read,
      whose fields were `members`. */
  ghost predicate Unseen(fs: seq<FormFieldAtom>, made: seq<bool>, members: seq<FormFieldAtom>)
  {
    |made| == |fs| && forall j | 0 <= j < |fs| && made[j] :: fs[j] !in members
  }

  lemma UnseenStep(fs: seq<FormFieldAtom>, made: seq<bool>, members: seq<FormFieldAtom>, f: FormFieldAtom, isNew: bool)
    requires Unseen(fs, made, members)
    requires isNew ==> f !in members
    ensures Unseen(fs + [f], made + [isNew], members)
  {
    forall j | 0 <= j < |fs| + 1 && (made + [isNew])[j] ensures (fs + [f])[j] !in members {
      if j < |fs| {
        assert (made + [isNew])[j] == made[j] && (fs + [f])[j] == fs[j];
      }
    }
  }

  /** Where a read of `valuesAtom` over the live ids `ids` stands after the
      first `|fs|` of them: the family state `t` is the run of their lookups
      from `start`, each handed out the member `fs` lists for it, `made` says
      which lookups made a new field, none of those was a field of the form
      at the start, and with the default equality each member is stored under
      its id's param. */
  ghost predicate ReadSoFar(start: Table<FormFieldAtom>, t: Table<FormFieldAtom>, eq: Option<Equality>,
                            policy: Option<RemovalPolicy>, listeners: seq<ListenerId>, ids: seq<nat>,
                            now: int, fs: seq<FormFieldAtom>, made: seq<bool>)
  {
    && |fs| <= |ids|
    && t == LookupsOp(start, eq, policy, listeners, IdStrings(ids)[..|fs|], now, fs)
    && HandsOut(start, eq, policy, listeners, IdStrings(ids), now, fs)
    && NewFlags(start, eq, policy, listeners, IdStrings(ids), now, fs, made)
    && Unseen(fs, made, start.members)
    && (eq.None? ==> StoredUnder(t.entries, ids, fs, |fs|))
  }

  /** `vals` are the values of the members `fs`, and each member a lookup
      made new is at the initial state `init`. */
  ghost predicate ReadValues(vals: seq<Value>, fs: seq<FormFieldAtom>, made: seq<bool>, init: Value)
    reads set j | 0 <= j < |fs| :: fs[j]
  {
    && |vals| == |fs|
    && (forall j :: 0 <= j < |fs| ==> vals[j] == fs[j].value)
    && Initial(fs, made, init)
  }

  /** The read moves on by one id when the lookup of that id took the family
      from `prev` (where the read stood) to `t`, its `LookupOp`, returned
      what `Handed` says and, if it made a new field, returned one at the
      initial state. */
  lemma ReadStep(start: Table<FormFieldAtom>, prev: Table<FormFieldAtom>, t: Table<FormFieldAtom>,
                 eq: Option<Equality>, policy: Option<RemovalPolicy>, listeners: seq<ListenerId>, ids: seq<nat>,
                 init: Value, now: int, vals: seq<Value>, fs: seq<FormFieldAtom>, made: seq<bool>,
                 v: Value, f: FormFieldAtom, isNew: bool)
    requires NoDup(ids) && |fs| < |ids| && v == f.value
    requires ReadSoFar(start, prev, eq, policy, listeners, ids, now, fs, made)
    requires ReadValues(vals, fs, made, init)
    requires t == LookupOp(prev, eq, policy, listeners, IntToString(ids[|fs|]), now, f)
    requires f == Handed(prev, eq, policy, IntToString(ids[|fs|]), f)
    requires isNew == MakesNew(prev, eq, policy, listeners, IntToString(ids[|fs|]))
    requires isNew ==> f !in start.members && f.value == init && !f.isDirty && f.ref.None?
    requires eq.None? ==>
      && KeepsOthers(prev.entries, t.entries, IntToString(ids[|fs|]))
      && KeyIndex(t.entries, IntToString(ids[|fs|])).Some?
      && t.entries[KeyIndex(t.entries, IntToString(ids[|fs|])).value].field == f
    ensures ReadSoFar(start, t, eq, policy, listeners, ids, now, fs + [f], made + [isNew])
    ensures ReadValues(vals + [v], fs + [f], made + [isNew], init)
  {
    if eq.None? {
      StoredUnderStep(prev.entries, t.entries, ids, fs, f);
    }
    LookupsOpStep(start, eq, policy, listeners, IdStrings(ids), now, fs, f);
    HandsOutStep(start, eq, policy, listeners, IdStrings(ids), now, fs, f);
    NewFlagsStep(start, eq, policy, listeners, IdStrings(ids), now, fs, made, f, isNew);
    InitialStep(fs, made, init, f, isNew);
    UnseenStep(fs, made, start.members, f, isNew);
    ValuesStep(vals, fs, v, f);
  }

  /** A read of `valuesAtom` that has looked up every one of the distinct
      ids `ids`: the family state is the run of all the lookups, each value is
      its member's, each member is what its lookup handed out, each member a
      lookup made new is at the initial state and was no field of the form
      before the read, and with the default equality each value is that of
      the member now stored under its id and every id whose param was not
      stored at the start got a new member. */
  lemma ReadDone(start: Table<FormFieldAtom>, t: Table<FormFieldAtom>, eq: Option<Equality>,
                 policy: Option<RemovalPolicy>, listeners: seq<ListenerId>, ids: seq<nat>, init: Value,
                 now: int, vals: seq<Value>, fs: seq<FormFieldAtom>, made: seq<bool>)
    requires NoDup(ids) && |fs| == |ids|
    requires ReadSoFar(start, t, eq, policy, listeners, ids, now, fs, made)
    requires ReadValues(vals, fs, made, init)
    ensures |vals| == |ids|
    ensures t == LookupsOp(start, eq, policy, listeners, IdStrings(ids), now, fs)
    ensures forall i :: 0 <= i < |ids| ==> vals[i] == fs[i].value
    ensures forall i :: 0 <= i < |ids| ==>
      fs[i] == Handed(LookupsOp(start, eq, policy, listeners, IdStrings(ids)[..i], now, fs[..i]),
                      eq, policy, IdStrings(ids)[i], fs[i])
    ensures forall i | 0 <= i < |ids| && NewAt(start, eq, policy, listeners, IdStrings(ids), now, fs, i) ::
      fs[i] !in start.members && vals[i] == init && !fs[i].isDirty && fs[i].ref.None?
    ensures eq.None? ==> forall i :: 0 <= i < |ids| ==>
      var k := KeyIndex(t.entries, IntToString(ids[i]));
      k.Some? && vals[i] == t.entries[k.value].field.value
    ensures eq.None? ==> forall i | 0 <= i < |ids| && KeyIndex(start.entries, IntToString(ids[i])).None? ::
      fs[i] !in start.members && vals[i] == init && !fs[i].isDirty && fs[i].ref.None?
  {
    assert IdStrings(ids)[..|fs|] == IdStrings(ids);
    HandsOutAll(start, eq, policy, listeners, IdStrings(ids), now, fs);
    if eq.None? {
      IdStringsDistinct(ids);
      forall i | 0 <= i < |ids| && KeyIndex(start.entries, IntToString(ids[i])).None?
        ensures NewAt(start, None, policy, listeners, IdStrings(ids), now, fs, i)
      {
        AbsentIsNew(start, policy, listeners, IdStrings(ids), now, fs, i);
      }
    }
  }

  /** Appending a member and its value keeps `vals` the values of `fs`. */
  lemma ValuesStep(vals: seq<Value>, fs: seq<FormFieldAtom>, v: Value, f: FormFieldAtom)
    requires |vals| == |fs| && v == f.value
    requires forall j :: 0 <= j < |fs| ==> vals[j] == fs[j].value
    ensures forall j :: 0 <= j < |fs| + 1 ==> (vals + [v])[j] == (fs + [f])[j].value
  {
    forall j | 0 <= j < |fs| + 1 ensures (vals + [v])[j] == (fs + [f])[j].value {
      if j < |fs| {
        assert (vals + [v])[j] == vals[j] && (fs + [f])[j] == fs[j];
      }
    }
  }

  /** A lookup of the i-th id that stores `f` under its parameter and keeps
      every other parameter's entry extends `StoredUnder` by one id. */
  lemma StoredUnderStep(before: seq<Entry<FormFieldAtom>>, after: seq<Entry<FormFieldAtom>>, ids: seq<nat>,
                        fs: seq<FormFieldAtom>, f: FormFieldAtom)
    requires NoDup(ids) && |fs| < |ids|
    requires StoredUnder(before, ids, fs, |fs|)
    requires KeepsOthers(before, after, IntToString(ids[|fs|]))
    requires KeyIndex(after, IntToString(ids[|fs|])).Some?
    requires after[KeyIndex(after, IntToString(ids[|fs|])).value].field == f
    ensures StoredUnder(after, ids, fs + [f], |fs| + 1)
  {
    var i := |fs|;
    forall j | 0 <= j < i + 1
      ensures var k := KeyIndex(after, IntToString(ids[j]));
        k.Some? && after[k.value].field == (fs + [f])[j]
    {
      if j < i {
        if IntToString(ids[j]) == IntToString(ids[i]) {
          IntToStringInjective(ids[j], ids[i]);
        }
        assert KeyIndex(before, IntToString(ids[j])).Some?;
      }
    }
  }

  class MultiFormField {
    /** `atomFamily` */
    const family: FieldFamily
    /** `idCounterAtom` */
    var idCounter: nat
    /** `usedIdsAtom` */
    var usedIds: seq<nat>

    /** Every live id was handed out by the counter, and none is live twice. */
    ghost predicate Valid()
      reads this
    {
      && (forall i :: 0 <= i < |usedIds| ==> usedIds[i] < idCounter)
      && NoDup(usedIds)
    }

    /** `multiFormField(options, areEqual)`: a new family, one field (id 0)
        in use, the next id is 1. */
    constructor (form: Form, options: FamilyOptions, areEqual: Option<Equality>)
      requires form.Valid()
      ensures Valid() && family.Valid()
      ensures fresh(family) && family.form == form && family.options == options && family.areEqual == areEqual
      ensures family.entries == [] && family.shouldRemove.None? && family.listeners == [] && family.events == []
      ensures idCounter == 1 && usedIds == [0]
    {
      family := new FieldFamily(form, options, areEqual);
      idCounter := 1;
      usedIds := [0];
    }

    /** `fieldIds`: the live ids as family parameters, in order; each reads
        back as its id. */
    function FieldIds(): (ids: seq<string>)
      reads this
      ensures |ids| == |usedIds|
      ensures forall i :: 0 <= i < |ids| ==> ids[i] == IntToString(usedIds[i])
      ensures forall i :: 0 <= i < |ids| ==> NumberOf(ids[i]) == Some(usedIds[i] as int)
    {
      IdsRoundTrip(usedIds);
      IdStrings(usedIds)
    }

    /** `addField`: the current counter becomes the last live id, and the
        counter moves on. */
    method AddField()
      requires Valid()
      modifies this`idCounter, this`usedIds
      ensures Valid()
      ensures usedIds == old(usedIds) + [old(idCounter)]
      ensures idCounter == old(idCounter) + 1
    {
      usedIds := usedIds + [idCounter];
      idCounter := idCounter + 1;
    }

    /** `removeField(removedId)`: drop every live id equal to
        `Number(removedId)`, keeping the others in order, and `remove` the
        parameter `removedId` from the family. */
    method RemoveField(removedId: string)
      requires Valid() && family.Valid()
      modifies this`usedIds, family`entries, family`events, family.form`formFields
      ensures Valid() && family.Valid()
      ensures usedIds == WithoutId(old(usedIds), NumberOf(removedId))
      ensures family.State() == RemoveOp(old(family.State()), family.areEqual, family.listeners, removedId)
    {
      WithoutIdKeepsInvariant(usedIds, NumberOf(removedId), idCounter);
      usedIds := WithoutId(usedIds, NumberOf(removedId));
      family.Remove(removedId);
    }

    /** `valuesAtom`: the value of the family member for each live id, in
        order. Reading it looks each member up in turn, creating missing ones;
        `fs` are the members the lookups hand out. A member a lookup creates
        holds the initial value, is clean, has no ref and was no field of the
        form before the read. With the default equality each value is that of
        the field now stored under the id's parameter, and every id whose
        parameter was not stored gets a created member. */
    method Values(now: int) returns (vals: seq<Value>, ghost fs: seq<FormFieldAtom>)
      requires Valid() && family.Valid()
      modifies family`entries, family`events, family.form`formFields
      ensures family.Valid()
      ensures |vals| == |usedIds| && |fs| == |usedIds|
      ensures family.State() == LookupsOp(old(family.State()), family.areEqual, family.shouldRemove, family.listeners,
                                          IdStrings(usedIds), now, fs)
      ensures forall i :: 0 <= i < |usedIds| ==> vals[i] == fs[i].value
      ensures forall i :: 0 <= i < |usedIds| ==>
        fs[i] == Handed(LookupsOp(old(family.State()), family.areEqual, family.shouldRemove, family.listeners,
                                  IdStrings(usedIds)[..i], now, fs[..i]),
                        family.areEqual, family.shouldRemove, IdStrings(usedIds)[i], fs[i])
      ensures forall i | 0 <= i < |usedIds| &&
        NewAt(old(family.State()), family.areEqual, family.shouldRemove, family.listeners, IdStrings(usedIds), now, fs, i) ::
        fs[i] !in old(family.form.formFields) && vals[i] == family.options.initialState && !fs[i].isDirty && fs[i].ref.None?
      ensures family.areEqual.None? ==> forall i :: 0 <= i < |usedIds| ==>
        var k := KeyIndex(family.entries, IntToString(usedIds[i]));
        k.Some? && vals[i] == family.entries[k.value].field.value
      ensures family.areEqual.None? ==> forall i | 0 <= i < |usedIds| &&
        KeyIndex(old(family.entries), IntToString(usedIds[i])).None? ::
        fs[i] !in old(family.form.formFields) && vals[i] == family.options.initialState && !fs[i].isDirty && fs[i].ref.None?
    {
      ghost var made;
      vals, fs, made := Lookups(now);
      ReadDone(old(family.State()), family.State(), family.areEqual, family.shouldRemove, family.listeners, usedIds,
               family.options.initialState, now, vals, fs, made);
    }

    /** The loop of `valuesAtom`: one lookup per live id, in order; `made`
        records which lookups made a new field. */
    method Lookups(now: int) returns (vals: seq<Value>, ghost fs: seq<FormFieldAtom>, ghost made: seq<bool>)
      requires Valid() && family.Valid()
      modifies family`entries, family`events, family.form`formFields
      ensures family.Valid() && |fs| == |usedIds|
      ensures Progress(old(family.State()), now, vals, fs, made)
    {
      vals := [];
      fs := [];
      made := [];
      var i := 0;
      while i < |usedIds|
        invariant i == |fs| <= |usedIds|
        invariant family.Valid() && Progress(old(family.State()), now, vals, fs, made)
      {
        var v, f, isNew := ValueAt(i, now, old(family.State()), vals, fs, made);
        vals := vals + [v];
        fs := fs + [f];
        made := made + [isNew];
        i := i + 1;
      }
    }

    /** Where the read of `valuesAtom` stands after the first `|fs|` ids,
        from the family state `start` (see `ReadSoFar`). */
    ghost predicate Progress(start: Table<FormFieldAtom>, now: int, vals: seq<Value>, fs: seq<FormFieldAtom>,
                             made: seq<bool>)
      reads this, family, family.form, set j | 0 <= j < |fs| :: fs[j]
    {
      && ReadSoFar(start, family.State(), family.areEqual, family.shouldRemove, family.listeners, usedIds, now, fs, made)
      && ReadValues(vals, fs, made, family.options.initialState)
    }

    /** One id's share of `valuesAtom`: look up the member for the i-th live
        id; `isNew` says whether the lookup made a new field. */
    method ValueAt(i: nat, now: int, ghost start: Table<FormFieldAtom>, ghost vals: seq<Value>,
                   ghost fs: seq<FormFieldAtom>, ghost made: seq<bool>)
      returns (v: Value, ghost f: FormFieldAtom, ghost isNew: bool)
      requires Valid() && family.Valid() && i == |fs| < |usedIds| && Progress(start, now, vals, fs, made)
      modifies family`entries, family`events, family.form`formFields
      ensures family.Valid() && v == f.value
      ensures f == Handed(old(family.State()), family.areEqual, family.shouldRemove, IntToString(usedIds[i]), f)
      ensures isNew == MakesNew(old(family.State()), family.areEqual, family.shouldRemove, family.listeners, IntToString(usedIds[i]))
      ensures isNew ==> fresh(f) && f.value == family.options.initialState && !f.isDirty && f.ref.None?
      ensures Progress(start, now, vals + [v], fs + [f], made + [isNew])
    {
      ghost var prev := family.State();
      isNew := MakesNew(prev, family.areEqual, family.shouldRemove, family.listeners, IntToString(usedIds[i]));
      var g := family.Get(IntToString(usedIds[i]), now);
      v := g.value;
      f := g;
      ReadStep(start, prev, family.State(), family.areEqual, family.shouldRemove, family.listeners, usedIds,
               family.options.initialState, now, vals, fs, made, v, f, isNew);
    }

    /** With the default equality and no removal policy, reading the values
        when every live id's member already exists changes nothing. */
    lemma ValuesOfLiveFields(now: int, fs: seq<FormFieldAtom>)
      requires family.areEqual.None? && family.shouldRemove.None? && |fs| == |usedIds|
      requires forall i :: 0 <= i < |usedIds| ==> KeyIndex(family.entries, IntToString(usedIds[i])).Some?
      ensures LookupsOp(family.State(), family.areEqual, family.shouldRemove, family.listeners, IdStrings(usedIds), now, fs)
           == family.State()
    {
      LookupsOfLiveKeys(family.State(), family.listeners, IdStrings(usedIds), now, fs);
    }
  }
}
