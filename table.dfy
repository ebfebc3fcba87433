/** The registry behind a field family, as plain values: the insertion-ordered
    map `param -> (field, createdAt)`, the form's insertion-ordered membership
    set and the log of listener calls. The field type `F` is left open so that
    these operations say nothing about what a field holds. */
module Table {
  import opened Wrappers
  import opened Field

  /** A listener callback, identified as a JavaScript `Set` identifies it. */
  type ListenerId = nat

  datatype EventKind = Create | Remove

  /** One listener call `listener({type, param, atom})`. */
  datatype Event<F> = Event(listener: ListenerId, kind: EventKind, param: Key, field: F)

  /** One map entry `param -> [field, createdAt]`. */
  datatype Entry<F> = Entry(key: Key, field: F, createdAt: int)

  /** The state a family operation changes: its entries, the form's
      membership set and the listener log. */
  datatype Table<F> = Table(entries: seq<Entry<F>>, members: seq<F>, events: seq<Event<F>>)

  /** A caller-supplied `areEqual(a, b)`. */
  type Equality = (Key, Key) -> bool

  /** A caller-supplied `shouldRemove(createdAt, param)`. */
  type RemovalPolicy = (int, Key) -> bool

  predicate NoDup<T(==)>(s: seq<T>) {
    forall i, j :: 0 <= i < j < |s| ==> s[i] != s[j]
  }

  /** A JavaScript `Map` holds each key once. */
  predicate KeysUnique<F>(entries: seq<Entry<F>>) {
    forall i, j :: 0 <= i < j < |entries| ==> entries[i].key != entries[j].key
  }

  /** `getParams()`: the live keys in insertion order. */
  function Keys<F>(entries: seq<Entry<F>>): (ks: seq<Key>)
    ensures |ks| == |entries|
    ensures forall i :: 0 <= i < |entries| ==> ks[i] == entries[i].key
  {
    if entries == [] then [] else [entries[0].key] + Keys(entries[1..])
  }

  /** Key matching: `===` by default, else the family's `areEqual(key, param)`. */
  predicate Matches(eq: Option<Equality>, key: Key, param: Key) {
    if eq.None? then key == param else eq.value(key, param)
  }

  /** `Map.get`: the position of the entry stored under exactly `k`. */
  function KeyIndex<F>(entries: seq<Entry<F>>, k: Key): (r: Option<nat>)
    ensures r.Some? ==> r.value < |entries| && entries[r.value].key == k
    ensures r.Some? ==> forall j :: 0 <= j < r.value ==> entries[j].key != k
    ensures r.None? ==> forall j :: 0 <= j < |entries| ==> entries[j].key != k
  {
    if entries == [] then None
    else if entries[0].key == k then Some(0)
    else match KeyIndex(entries[1..], k)
      case None => None
      case Some(i) => Some(i + 1)
  }

  /** The first entry, in insertion order, whose key `areEqual` relates to `param`. */
  function MatchIndex<F>(entries: seq<Entry<F>>, eq: Equality, param: Key): (r: Option<nat>)
    ensures r.Some? ==> r.value < |entries| && eq(entries[r.value].key, param)
    ensures r.Some? ==> forall j :: 0 <= j < r.value ==> !eq(entries[j].key, param)
    ensures r.None? ==> forall j :: 0 <= j < |entries| ==> !eq(entries[j].key, param)
  {
    if entries == [] then None
    else if eq(entries[0].key, param) then Some(0)
    else match MatchIndex(entries[1..], eq, param)
      case None => None
      case Some(i) => Some(i + 1)
  }

  /** The entry a lookup or a `remove` acts on: a hashed `get` by default, a
      first-match scan with a custom `areEqual`. */
  function Find<F>(entries: seq<Entry<F>>, eq: Option<Equality>, param: Key): (r: Option<nat>)
    ensures r.Some? ==> r.value < |entries| && Matches(eq, entries[r.value].key, param)
    ensures r.Some? ==> forall j :: 0 <= j < r.value ==> !Matches(eq, entries[j].key, param)
    ensures r.None? ==> forall j :: 0 <= j < |entries| ==> !Matches(eq, entries[j].key, param)
  {
    if eq.None? then KeyIndex(entries, param) else MatchIndex(entries, eq.value, param)
  }

  /** `Map.delete` of the entry at position `i`. */
  function RemoveAt<F>(entries: seq<Entry<F>>, i: nat): (r: seq<Entry<F>>)
    requires i < |entries|
    ensures |r| == |entries| - 1
    ensures forall j :: 0 <= j < i ==> r[j] == entries[j]
    ensures forall j :: i <= j < |r| ==> r[j] == entries[j + 1]
  {
    entries[..i] + entries[i + 1..]
  }

  /** `Map.set(k, [f, t])`: overwrite in place when `k` is a key, else append. */
  function SetKey<F>(entries: seq<Entry<F>>, k: Key, f: F, t: int): (r: seq<Entry<F>>) {
    match KeyIndex(entries, k)
    case Some(i) => entries[i := Entry(k, f, t)]
    case None => entries + [Entry(k, f, t)]
  }

  /** `Set.add`: insertion order, no duplicates. */
  function SetAdd<T(==)>(s: seq<T>, x: T): (r: seq<T>)
    ensures x in r
    ensures forall i :: 0 <= i < |s| ==> s[i] in r
    ensures forall i :: 0 <= i < |r| ==> r[i] in s || r[i] == x
    ensures x in s ==> r == s
    ensures x !in s ==> r == s + [x]
  {
    if x in s then s else s + [x]
  }

  /** `Set.delete`: drop `x`, keep the order of the rest. */
  function SetDelete<T(==)>(s: seq<T>, x: T): (r: seq<T>)
    ensures x !in r
    ensures forall i :: 0 <= i < |r| ==> r[i] in s
    ensures forall i :: 0 <= i < |s| && s[i] != x ==> s[i] in r
    ensures |r| <= |s|
    ensures x !in s ==> r == s
  {
    if s == [] then []
    else (if s[0] == x then [] else [s[0]]) + SetDelete(s[1..], x)
  }

  /** `Set.delete` removes every copy of `x` and keeps the count of every
      other element. */
  lemma {:induction false} SetDeleteCounts<T>(s: seq<T>, x: T)
    ensures multiset(SetDelete(s, x)) == multiset(s)[x := 0]
  {
    if s != [] {
      var tail := s[1..];
      var head := if s[0] == x then [] else [s[0]];
      SetDeleteCounts(tail, x);
      assert s == [s[0]] + tail;
      assert SetDelete(s, x) == head + SetDelete(tail, x);
      ZeroCons(s[0], multiset(tail), x);
    }
  }

  lemma ZeroCons<T>(a: T, m: multiset<T>, x: T)
    ensures (multiset{a} + m)[x := 0] == multiset(if a == x then [] else [a]) + m[x := 0]
  {
  }

  /** `notifyListeners`: one call per registered listener, in insertion order. */
  function Notifications<F>(listeners: seq<ListenerId>, kind: EventKind, param: Key, f: F): (r: seq<Event<F>>)
    ensures |r| == |listeners|
    ensures forall i :: 0 <= i < |listeners| ==> r[i] == Event(listeners[i], kind, param, f)
  {
    if listeners == [] then []
    else [Event(listeners[0], kind, param, f)] + Notifications(listeners[1..], kind, param, f)
  }

  /** `remove(param)`: delete the entry `Find` selects, drop its field from
      the membership set and report REMOVE with `param`; nothing when no entry
      matches. */
  function RemoveOp<F(==)>(t: Table<F>, eq: Option<Equality>, listeners: seq<ListenerId>, param: Key): Table<F> {
    match Find(t.entries, eq, param)
    case None => t
    case Some(i) =>
      Table(RemoveAt(t.entries, i),
            SetDelete(t.members, t.entries[i].field),
            t.events + Notifications(listeners, Remove, param, t.entries[i].field))
  }

  /** The create half of a lookup: add the field to the membership set, store
      `param -> [f, now]`, report CREATE. */
  function CreateOp<F(==)>(t: Table<F>, listeners: seq<ListenerId>, param: Key, f: F, now: int): Table<F> {
    Table(SetKey(t.entries, param, f, now),
          SetAdd(t.members, f),
          t.events + Notifications(listeners, Create, param, f))
  }

  /** The sweep of `setShouldRemove(fn)` over a snapshot of the keys: a key
      still stored when its turn comes is passed to `remove` if `fn` holds of
      its entry. */
  function SweepOp<F(==)>(t: Table<F>, eq: Option<Equality>, listeners: seq<ListenerId>,
                          fn: RemovalPolicy, keys: seq<Key>): Table<F>
    decreases |keys|
  {
    if keys == [] then t
    else
      var j := KeyIndex(t.entries, keys[0]);
      var t' := if j.Some? && fn(t.entries[j.value].createdAt, keys[0])
                then RemoveOp(t, eq, listeners, keys[0]) else t;
      SweepOp(t', eq, listeners, fn, keys[1..])
  }

  /** A lookup `family(param)` at time `now` whose create half, if it runs,
      hands out `f`: a live entry the policy spares is returned and nothing
      changes; otherwise an evicted entry is first removed, then `f` is stored
      under `param` and CREATE is reported. */
  function LookupOp<F(==)>(t: Table<F>, eq: Option<Equality>, policy: Option<RemovalPolicy>,
                           listeners: seq<ListenerId>, param: Key, now: int, f: F): Table<F>
  {
    var i := Find(t.entries, eq, param);
    var evict := i.Some? && policy.Some? && policy.value(t.entries[i.value].createdAt, param);
    if i.Some? && !evict then t
    else CreateOp(if evict then RemoveOp(t, eq, listeners, param) else t, listeners, param, f, now)
  }

  /** The member `family(param)` returns when its create half would hand out
      `f`: the found entry's field on a hit the policy spares, else `f`. */
  function Handed<F>(t: Table<F>, eq: Option<Equality>, policy: Option<RemovalPolicy>, param: Key, f: F): F {
    var i := Find(t.entries, eq, param);
    if i.Some? && !(policy.Some? && policy.value(t.entries[i.value].createdAt, param))
    then t.entries[i.value].field else f
  }

  /** With `===`, the member a lookup returns is the one the new map stores
      under `param`. */
  lemma HandedIsStored<F>(t: Table<F>, policy: Option<RemovalPolicy>, listeners: seq<ListenerId>,
                          param: Key, now: int, f: F)
    requires KeysUnique(t.entries)
    ensures var r := LookupOp(t, None, policy, listeners, param, now, f);
      KeyIndex(r.entries, param).Some? && r.entries[KeyIndex(r.entries, param).value].field == Handed(t, None, policy, param, f)
  {
    var i := KeyIndex(t.entries, param);
    var evict := i.Some? && policy.Some? && policy.value(t.entries[i.value].createdAt, param);
    if !(i.Some? && !evict) {
      var base := if evict then RemoveOp(t, None, listeners, param) else t;
      RemoveOpFacts(t, None, listeners, param);
      CreateOpFacts(base, listeners, param, f, now);
    }
  }

  /** Whether `family(param)` in `t` makes a new field: no entry matches or
      the match is evicted, and after the eviction no entry is stored under
      exactly `param` (whose field the family's own cache would hand back). */
  predicate MakesNew<F(==)>(t: Table<F>, eq: Option<Equality>, policy: Option<RemovalPolicy>,
                            listeners: seq<ListenerId>, param: Key)
  {
    var i := Find(t.entries, eq, param);
    var evict := i.Some? && policy.Some? && policy.value(t.entries[i.value].createdAt, param);
    var base := if evict then RemoveOp(t, eq, listeners, param) else t;
    (i.None? || evict) && KeyIndex(base.entries, param).None?
  }

  /** With `===`, a lookup of a param no entry holds makes a new field. */
  lemma AbsentMakesNew<F>(t: Table<F>, policy: Option<RemovalPolicy>, listeners: seq<ListenerId>, param: Key)
    requires KeyIndex(t.entries, param).None?
    ensures MakesNew(t, None, policy, listeners, param)
  {
  }

  /** Under any equality, a lookup of `q` never stores another key `p`: the
      eviction only deletes, and `Map.set` only writes `q`. */
  lemma LookupOpKeepsAbsent<F>(t: Table<F>, eq: Option<Equality>, policy: Option<RemovalPolicy>,
                               listeners: seq<ListenerId>, q: Key, now: int, f: F, p: Key)
    requires p != q && KeyIndex(t.entries, p).None?
    ensures KeyIndex(LookupOp(t, eq, policy, listeners, q, now, f).entries, p).None?
  {
    var i := Find(t.entries, eq, q);
    var evict := i.Some? && policy.Some? && policy.value(t.entries[i.value].createdAt, q);
    if !(i.Some? && !evict) {
      var base := if evict then RemoveOp(t, eq, listeners, q) else t;
      forall j | 0 <= j < |base.entries| ensures base.entries[j].key != p {
        if evict {
          assert base.entries[j] == t.entries[if j < i.value then j else j + 1];
        }
      }
      var r := SetKey(base.entries, q, f, now);
      forall j | 0 <= j < |r| ensures r[j].key != p {
        match KeyIndex(base.entries, q)
        case Some(k) => assert r[j] == if j == k then Entry(q, f, now) else base.entries[j];
        case None => assert r[j] == if j < |base.entries| then base.entries[j] else Entry(q, f, now);
      }
    }
  }

  /** A run of lookups of params other than `p` leaves `p` unstored. */
  lemma {:induction false} LookupsOpKeepsAbsent<F>(t: Table<F>, eq: Option<Equality>, policy: Option<RemovalPolicy>,
                                                   listeners: seq<ListenerId>, params: seq<Key>, now: int, fs: seq<F>, p: Key)
    requires |fs| == |params| && p !in params && KeyIndex(t.entries, p).None?
    ensures KeyIndex(LookupsOp(t, eq, policy, listeners, params, now, fs).entries, p).None?
    decreases |params|
  {
    if params != [] {
      var n := |params| - 1;
      assert p !in params[..n] && p != params[n];
      LookupsOpKeepsAbsent(t, eq, policy, listeners, params[..n], now, fs[..n], p);
      LookupOpKeepsAbsent(LookupsOp(t, eq, policy, listeners, params[..n], now, fs[..n]), eq, policy, listeners,
                          params[n], now, fs[n], p);
    }
  }

  /** The j-th lookup of a run makes a new field, in the state the lookups
      before it left. */
  ghost predicate NewAt<F>(start: Table<F>, eq: Option<Equality>, policy: Option<RemovalPolicy>,
                               listeners: seq<ListenerId>, params: seq<Key>, now: int, fs: seq<F>, j: nat)
    requires j < |fs| <= |params|
  {
    MakesNew(LookupsOp(start, eq, policy, listeners, params[..j], now, fs[..j]), eq, policy, listeners, params[j])
  }

  /** Appending a lookup leaves the earlier lookups' `NewAt` as it was, and
      the new one's is `MakesNew` in the state the run has reached. */
  lemma NewAtStep<F>(start: Table<F>, eq: Option<Equality>, policy: Option<RemovalPolicy>,
                     listeners: seq<ListenerId>, params: seq<Key>, now: int, fs: seq<F>, f: F)
    requires |fs| < |params|
    ensures NewAt(start, eq, policy, listeners, params, now, fs + [f], |fs|) ==
      MakesNew(LookupsOp(start, eq, policy, listeners, params[..|fs|], now, fs), eq, policy, listeners, params[|fs|])
    ensures forall j :: 0 <= j < |fs| ==>
      NewAt(start, eq, policy, listeners, params, now, fs + [f], j) == NewAt(start, eq, policy, listeners, params, now, fs, j)
  {
    assert (fs + [f])[..|fs|] == fs;
    forall j | 0 <= j < |fs|
      ensures NewAt(start, eq, policy, listeners, params, now, fs + [f], j) == NewAt(start, eq, policy, listeners, params, now, fs, j)
    {
      assert (fs + [f])[..j] == fs[..j];
    }
  }

  /** `made` records, lookup by lookup, whether each lookup of the run made
      a new field. */
  ghost predicate NewFlags<F>(start: Table<F>, eq: Option<Equality>, policy: Option<RemovalPolicy>,
                              listeners: seq<ListenerId>, params: seq<Key>, now: int, fs: seq<F>, made: seq<bool>)
    requires |fs| <= |params|
  {
    && |made| == |fs|
    && forall j :: 0 <= j < |fs| ==> made[j] == NewAt(start, eq, policy, listeners, params, now, fs, j)
  }

  /** One more lookup, whose flag is `MakesNew` in the state the run has
      reached, extends the flags by one. */
  lemma NewFlagsStep<F>(start: Table<F>, eq: Option<Equality>, policy: Option<RemovalPolicy>,
                        listeners: seq<ListenerId>, params: seq<Key>, now: int, fs: seq<F>, made: seq<bool>, f: F, b: bool)
    requires |fs| < |params| && NewFlags(start, eq, policy, listeners, params, now, fs, made)
    requires b == MakesNew(LookupsOp(start, eq, policy, listeners, params[..|fs|], now, fs), eq, policy, listeners, params[|fs|])
    ensures NewFlags(start, eq, policy, listeners, params, now, fs + [f], made + [b])
  {
    NewAtStep(start, eq, policy, listeners, params, now, fs, f);
    forall j | 0 <= j < |fs| + 1
      ensures (made + [b])[j] == NewAt(start, eq, policy, listeners, params, now, fs + [f], j)
    {
      if j < |fs| {
        assert (made + [b])[j] == made[j];
      }
    }
  }

  /** With `===` and distinct params, a lookup of a param that was not stored
      when the run began makes a new field. */
  lemma AbsentIsNew<F>(start: Table<F>, policy: Option<RemovalPolicy>, listeners: seq<ListenerId>,
                       params: seq<Key>, now: int, fs: seq<F>, j: nat)
    requires NoDup(params) && |fs| == |params| && j < |fs|
    requires KeyIndex(start.entries, params[j]).None?
    ensures NewAt(start, None, policy, listeners, params, now, fs, j)
  {
    assert params[j] !in params[..j] by {
      forall k | 0 <= k < j ensures params[..j][k] != params[j] {}
    }
    LookupsOpKeepsAbsent(start, None, policy, listeners, params[..j], now, fs[..j], params[j]);
    AbsentMakesNew(LookupsOp(start, None, policy, listeners, params[..j], now, fs[..j]), policy, listeners, params[j]);
  }

  /** The first `|fs|` lookups of `params` from `start` returned `fs`, each
      given the state the lookups before it left. */
  ghost predicate HandsOut<F>(start: Table<F>, eq: Option<Equality>, policy: Option<RemovalPolicy>,
                                  listeners: seq<ListenerId>, params: seq<Key>, now: int, fs: seq<F>)
    requires |fs| <= |params|
  {
    forall j {:trigger LookupsOp(start, eq, policy, listeners, params[..j], now, fs[..j])} :: 0 <= j < |fs| ==>
      fs[j] == Handed(LookupsOp(start, eq, policy, listeners, params[..j], now, fs[..j]), eq, policy, params[j], fs[j])
  }

  /** `HandsOut` spelled out for each lookup of the run. */
  lemma HandsOutAll<F>(start: Table<F>, eq: Option<Equality>, policy: Option<RemovalPolicy>,
                       listeners: seq<ListenerId>, params: seq<Key>, now: int, fs: seq<F>)
    requires |fs| == |params| && HandsOut(start, eq, policy, listeners, params, now, fs)
    ensures forall i :: 0 <= i < |params| ==>
      fs[i] == Handed(LookupsOp(start, eq, policy, listeners, params[..i], now, fs[..i]), eq, policy, params[i], fs[i])
  {
    forall i | 0 <= i < |params|
      ensures fs[i] == Handed(LookupsOp(start, eq, policy, listeners, params[..i], now, fs[..i]), eq, policy, params[i], fs[i])
    {
      var t := LookupsOp(start, eq, policy, listeners, params[..i], now, fs[..i]);
    }
  }

  /** A lookup that returns what `Handed` says extends `HandsOut` by one. */
  lemma HandsOutStep<F>(start: Table<F>, eq: Option<Equality>, policy: Option<RemovalPolicy>,
                        listeners: seq<ListenerId>, params: seq<Key>, now: int, fs: seq<F>, f: F)
    requires |fs| < |params| && HandsOut(start, eq, policy, listeners, params, now, fs)
    requires f == Handed(LookupsOp(start, eq, policy, listeners, params[..|fs|], now, fs), eq, policy, params[|fs|], f)
    ensures HandsOut(start, eq, policy, listeners, params, now, fs + [f])
  {
    var gs := fs + [f];
    forall j | 0 <= j < |gs|
      ensures gs[j] == Handed(LookupsOp(start, eq, policy, listeners, params[..j], now, gs[..j]), eq, policy, params[j], gs[j])
    {
      if j < |fs| {
        assert gs[..j] == fs[..j] && gs[j] == fs[j];
      } else {
        assert gs[..j] == fs;
      }
    }
  }

  /** Lookups of `params` in order, the k-th handing out `fs[k]` if it creates. */
  function LookupsOp<F(==)>(t: Table<F>, eq: Option<Equality>, policy: Option<RemovalPolicy>,
                            listeners: seq<ListenerId>, params: seq<Key>, now: int, fs: seq<F>): Table<F>
    requires |fs| == |params|
    decreases |params|
  {
    if params == [] then t
    else
      var n := |params| - 1;
      LookupOp(LookupsOp(t, eq, policy, listeners, params[..n], now, fs[..n]), eq, policy, listeners, params[n], now, fs[n])
  }

  /** One more lookup at the end of a run of lookups. */
  lemma LookupsOpStep<F>(t: Table<F>, eq: Option<Equality>, policy: Option<RemovalPolicy>, listeners: seq<ListenerId>,
                         params: seq<Key>, now: int, fs: seq<F>, f: F)
    requires |fs| < |params|
    ensures LookupsOp(t, eq, policy, listeners, params[..|fs| + 1], now, fs + [f])
         == LookupOp(LookupsOp(t, eq, policy, listeners, params[..|fs|], now, fs), eq, policy, listeners, params[|fs|], now, f)
  {
    var i := |fs|;
    assert params[..i + 1][..i] == params[..i];
    assert (fs + [f])[..i] == fs;
  }

  /** With `===` and no policy, looking up keys that are all stored changes
      nothing: every lookup is a cache hit. */
  lemma {:induction false} LookupsOfLiveKeys<F>(t: Table<F>, listeners: seq<ListenerId>, params: seq<Key>, now: int, fs: seq<F>)
    requires |fs| == |params|
    requires forall k :: 0 <= k < |params| ==> KeyIndex(t.entries, params[k]).Some?
    ensures LookupsOp(t, None, None, listeners, params, now, fs) == t
  {
    if params != [] {
      var n := |params| - 1;
      LookupsOfLiveKeys(t, listeners, params[..n], now, fs[..n]);
      assert KeyIndex(t.entries, params[n]).Some?;
    }
  }

  /** The entries a policy keeps. */
  function Kept<F>(entries: seq<Entry<F>>, fn: RemovalPolicy): (r: seq<Entry<F>>)
    ensures |r| <= |entries|
  {
    if entries == [] then []
    else (if fn(entries[0].createdAt, entries[0].key) then [] else [entries[0]]) + Kept(entries[1..], fn)
  }

  /** `Kept` holds exactly the entries the policy spares, in their order. */
  lemma {:induction false} KeptSpares<F>(entries: seq<Entry<F>>, fn: RemovalPolicy)
    ensures forall i :: 0 <= i < |Kept(entries, fn)| ==>
      Kept(entries, fn)[i] in entries && !fn(Kept(entries, fn)[i].createdAt, Kept(entries, fn)[i].key)
    ensures forall i :: 0 <= i < |entries| && !fn(entries[i].createdAt, entries[i].key) ==> entries[i] in Kept(entries, fn)
  {
    if entries != [] {
      KeptSpares(entries[1..], fn);
      assert entries == [entries[0]] + entries[1..];
    }
  }

  // ---------------------------------------------------------------------
  // Properties of the table operations

  /** Keys of a concatenation. */
  lemma {:induction false} KeysAppend<F>(a: seq<Entry<F>>, b: seq<Entry<F>>)
    ensures Keys(a + b) == Keys(a) + Keys(b)
  {
    assert |Keys(a + b)| == |Keys(a) + Keys(b)|;
    forall i | 0 <= i < |a + b| ensures Keys(a + b)[i] == (Keys(a) + Keys(b))[i] {
    }
  }

  /** `Map.set` on an existing key overwrites that entry in place. */
  lemma SetKeyExisting<F>(entries: seq<Entry<F>>, k: Key, f: F, t: int, i: nat)
    requires KeysUnique(entries)
    requires KeyIndex(entries, k) == Some(i)
    ensures var r := SetKey(entries, k, f, t);
      && KeysUnique(r) && |r| == |entries| && Keys(r) == Keys(entries)
      && KeyIndex(r, k) == Some(i) && r[i] == Entry(k, f, t)
      && (forall j :: 0 <= j < |r| && j != i ==> r[j] == entries[j])
  {
    var r := SetKey(entries, k, f, t);
    assert r == entries[i := Entry(k, f, t)];
    assert Keys(r) == Keys(entries);
  }

  /** `Map.set` on a new key appends an entry. */
  lemma SetKeyNew<F>(entries: seq<Entry<F>>, k: Key, f: F, t: int)
    requires KeysUnique(entries)
    requires KeyIndex(entries, k).None?
    ensures var r := SetKey(entries, k, f, t);
      && KeysUnique(r) && r == entries + [Entry(k, f, t)] && Keys(r) == Keys(entries) + [k]
      && KeyIndex(r, k) == Some(|entries|)
  {
    var r := SetKey(entries, k, f, t);
    assert r == entries + [Entry(k, f, t)];
    KeysAppend(entries, [Entry(k, f, t)]);
    assert r[|entries|].key == k;
    var ki := KeyIndex(r, k);
    assert ki.Some?;
    assert ki.value >= |entries|;
  }

  /** `Map.set` keeps keys unique, stores exactly `[f, t]` under `k`, leaves
      every other entry where it was, and appends `k` to the key order only
      when `k` was not a key. */
  lemma SetKeyFacts<F>(entries: seq<Entry<F>>, k: Key, f: F, t: int)
    requires KeysUnique(entries)
    ensures var r := SetKey(entries, k, f, t);
      && KeysUnique(r)
      && KeyIndex(r, k).Some? && r[KeyIndex(r, k).value] == Entry(k, f, t)
      && (forall i :: 0 <= i < |r| && r[i].key != k ==> i < |entries| && r[i] == entries[i])
      && |r| == |entries| + (if KeyIndex(entries, k).None? then 1 else 0)
      && Keys(r) == (if KeyIndex(entries, k).None? then Keys(entries) + [k] else Keys(entries))
  {
    match KeyIndex(entries, k)
    case Some(i) => SetKeyExisting(entries, k, f, t, i);
    case None => SetKeyNew(entries, k, f, t);
  }

  /** `Set.delete` keeps a set duplicate-free and shrinks it by exactly one
      when the element was present. */
  lemma {:induction false} SetDeleteFacts<T>(s: seq<T>, x: T)
    requires NoDup(s)
    ensures NoDup(SetDelete(s, x))
    ensures x in s ==> |SetDelete(s, x)| == |s| - 1
  {
    if s != [] {
      SetDeleteFacts(s[1..], x);
      var rest := SetDelete(s[1..], x);
      assert s[0] !in s[1..];
      assert s[0] !in rest;
      if x in s && s[0] != x {
        assert x in s[1..];
      }
    }
  }

  /** `Set.add` keeps a set duplicate-free. */
  lemma SetAddNoDup<T>(s: seq<T>, x: T)
    requires NoDup(s)
    ensures NoDup(SetAdd(s, x))
  {
  }

  /** `remove` acts on at most one entry: with no match the table, the
      membership set and the log are untouched; otherwise exactly the matched
      entry goes, its key leaves the key order in place, its field leaves the
      membership set and every listener hears one REMOVE. */
  lemma RemoveOpFacts<F>(t: Table<F>, eq: Option<Equality>, listeners: seq<ListenerId>, param: Key)
    requires KeysUnique(t.entries)
    ensures var r := RemoveOp(t, eq, listeners, param);
      && KeysUnique(r.entries)
      && (Find(t.entries, eq, param).None? ==> r == t)
      && (Find(t.entries, eq, param).Some? ==>
            var i := Find(t.entries, eq, param).value;
            && |r.entries| == |t.entries| - 1
            && Keys(r.entries) == Keys(t.entries)[..i] + Keys(t.entries)[i + 1..]
            && t.entries[i].field !in r.members
            && r.events == t.events + Notifications(listeners, Remove, param, t.entries[i].field))
  {
    match Find(t.entries, eq, param)
    case None =>
    case Some(i) =>
      RemoveAtKeys(t.entries, i);
  }

  /** `Map.delete` keeps keys unique and takes its key out of the key order
      in place. */
  lemma RemoveAtKeys<F>(entries: seq<Entry<F>>, i: nat)
    requires KeysUnique(entries) && i < |entries|
    ensures KeysUnique(RemoveAt(entries, i))
    ensures Keys(RemoveAt(entries, i)) == Keys(entries)[..i] + Keys(entries)[i + 1..]
  {
    RemoveAtUnique(entries, i);
    RemoveAtKeyOrder(entries, i);
  }

  lemma RemoveAtUnique<F>(entries: seq<Entry<F>>, i: nat)
    requires KeysUnique(entries) && i < |entries|
    ensures KeysUnique(RemoveAt(entries, i))
  {
    var r := RemoveAt(entries, i);
    forall j, k | 0 <= j < k < |r| ensures r[j].key != r[k].key {
      var j' := if j < i then j else j + 1;
      var k' := if k < i then k else k + 1;
      assert r[j] == entries[j'];
      assert r[k] == entries[k'];
    }
  }

  lemma RemoveAtKeyOrder<F>(entries: seq<Entry<F>>, i: nat)
    requires i < |entries|
    ensures Keys(RemoveAt(entries, i)) == Keys(entries)[..i] + Keys(entries)[i + 1..]
  {
    var r := RemoveAt(entries, i);
    var ks := Keys(entries);
    var want := ks[..i] + ks[i + 1..];
    var got := Keys(r);
    assert |got| == |want|;
    forall j | 0 <= j < |got| ensures got[j] == want[j] {
      var j' := if j < i then j else j + 1;
      assert got[j] == r[j].key;
      assert r[j] == entries[j'];
      assert want[j] == ks[j'];
    }
  }

  /** The create step keeps keys unique, makes `param` map to exactly
      `[f, now]`, adds `f` to the membership set and tells every listener
      once. */
  lemma CreateOpFacts<F>(t: Table<F>, listeners: seq<ListenerId>, param: Key, f: F, now: int)
    requires KeysUnique(t.entries)
    ensures var r := CreateOp(t, listeners, param, f, now);
      && KeysUnique(r.entries)
      && KeyIndex(r.entries, param).Some?
      && r.entries[KeyIndex(r.entries, param).value] == Entry(param, f, now)
      && (forall i :: 0 <= i < |r.entries| && r.entries[i].key != param ==>
            i < |t.entries| && r.entries[i] == t.entries[i])
      && f in r.members
      && r.events == t.events + Notifications(listeners, Create, param, f)
  {
    SetKeyFacts(t.entries, param, f, now);
  }

  /** A sweep keeps keys unique. */
  lemma {:induction false} SweepKeepsKeysUnique<F>(t: Table<F>, eq: Option<Equality>,
                                                       listeners: seq<ListenerId>,
                                                       fn: RemovalPolicy, keys: seq<Key>)
    requires KeysUnique(t.entries)
    ensures KeysUnique(SweepOp(t, eq, listeners, fn, keys).entries)
    decreases |keys|
  {
    if keys != [] {
      var j := KeyIndex(t.entries, keys[0]);
      var t' := if j.Some? && fn(t.entries[j.value].createdAt, keys[0])
                then RemoveOp(t, eq, listeners, keys[0]) else t;
      RemoveOpFacts(t, eq, listeners, keys[0]);
      SweepKeepsKeysUnique(t', eq, listeners, fn, keys[1..]);
    }
  }

  /** A sweep removes exactly the entries the policy selects and keeps the
      others in order, under `===` or under an `areEqual` that is an
      equivalence on a map whose keys are pairwise unequal (stated for a
      sweep that has already passed the entries in `done`). */
  lemma {:induction false} SweepKeeps<F>(t: Table<F>, eq: Option<Equality>, listeners: seq<ListenerId>,
                                             fn: RemovalPolicy, done: seq<Entry<F>>, rest: seq<Entry<F>>)
    requires t.entries == done + rest
    requires KeysUnique(t.entries) && Distinguishes(t.entries, eq)
    ensures SweepOp(t, eq, listeners, fn, Keys(rest)).entries == done + Kept(rest, fn)
    decreases |rest|, 1
  {
    if rest != [] {
      SweepUnfold(t, eq, listeners, fn, done, rest);
      if fn(rest[0].createdAt, rest[0].key) {
        SweepKeepsRemoved(t, eq, listeners, fn, done, rest);
      } else {
        SweepKeepsStays(t, eq, listeners, fn, done, rest);
      }
    }
  }

  /** The sweep step that removes the visited entry. */
  lemma {:induction false} SweepKeepsRemoved<F>(t: Table<F>, eq: Option<Equality>, listeners: seq<ListenerId>,
                                                    fn: RemovalPolicy, done: seq<Entry<F>>, rest: seq<Entry<F>>)
    requires t.entries == done + rest && rest != [] && fn(rest[0].createdAt, rest[0].key)
    requires KeysUnique(t.entries) && Distinguishes(t.entries, eq)
    ensures SweepOp(RemoveOp(t, eq, listeners, rest[0].key), eq, listeners, fn, Keys(rest[1..])).entries
         == done + Kept(rest, fn)
    decreases |rest|, 0
  {
    SweepRemoveStep(t, eq, listeners, done, rest);
    SweepKeeps(RemoveOp(t, eq, listeners, rest[0].key), eq, listeners, fn, done, rest[1..]);
    KeptStep(rest, fn, done);
  }

  /** The sweep step that keeps the visited entry. */
  lemma {:induction false} SweepKeepsStays<F>(t: Table<F>, eq: Option<Equality>, listeners: seq<ListenerId>,
                                                  fn: RemovalPolicy, done: seq<Entry<F>>, rest: seq<Entry<F>>)
    requires t.entries == done + rest && rest != [] && !fn(rest[0].createdAt, rest[0].key)
    requires KeysUnique(t.entries) && Distinguishes(t.entries, eq)
    ensures SweepOp(t, eq, listeners, fn, Keys(rest[1..])).entries == done + Kept(rest, fn)
    decreases |rest|, 0
  {
    assert t.entries == (done + [rest[0]]) + rest[1..];
    SweepKeeps(t, eq, listeners, fn, done + [rest[0]], rest[1..]);
    KeptStep(rest, fn, done);
  }

  /** `Kept` after a prefix, one entry at a time. */
  lemma KeptStep<F>(rest: seq<Entry<F>>, fn: RemovalPolicy, done: seq<Entry<F>>)
    requires rest != []
    ensures fn(rest[0].createdAt, rest[0].key) ==> done + Kept(rest, fn) == done + Kept(rest[1..], fn)
    ensures !fn(rest[0].createdAt, rest[0].key) ==> done + Kept(rest, fn) == (done + [rest[0]]) + Kept(rest[1..], fn)
  {
    if fn(rest[0].createdAt, rest[0].key) {
      assert Kept(rest, fn) == [] + Kept(rest[1..], fn);
      assert [] + Kept(rest[1..], fn) == Kept(rest[1..], fn);
    } else {
      assert Kept(rest, fn) == [rest[0]] + Kept(rest[1..], fn);
    }
  }

  /** One step of the sweep: the visited key is still stored at its place. */
  lemma SweepUnfold<F>(t: Table<F>, eq: Option<Equality>, listeners: seq<ListenerId>,
                       fn: RemovalPolicy, done: seq<Entry<F>>, rest: seq<Entry<F>>)
    requires t.entries == done + rest && rest != []
    requires KeysUnique(t.entries)
    ensures SweepOp(t, eq, listeners, fn, Keys(rest))
         == SweepOp(if fn(rest[0].createdAt, rest[0].key) then RemoveOp(t, eq, listeners, rest[0].key) else t,
                    eq, listeners, fn, Keys(rest[1..]))
  {
    var e := rest[0];
    assert Keys(rest)[0] == e.key;
    assert Keys(rest)[1..] == Keys(rest[1..]);
    assert t.entries[|done|] == e;
    assert KeyIndex(t.entries, e.key) == Some(|done|);
  }

  /** One removal of the sweep takes out exactly the entry it visits. */
  lemma SweepRemoveStep<F>(t: Table<F>, eq: Option<Equality>, listeners: seq<ListenerId>,
                           done: seq<Entry<F>>, rest: seq<Entry<F>>)
    requires t.entries == done + rest && rest != []
    requires KeysUnique(t.entries) && Distinguishes(t.entries, eq)
    ensures var r := RemoveOp(t, eq, listeners, rest[0].key).entries;
      r == done + rest[1..] && KeysUnique(r) && Distinguishes(r, eq)
  {
    var e := rest[0];
    assert t.entries[|done|] == e;
    assert KeyIndex(t.entries, e.key) == Some(|done|);
    FindStoredKey(t.entries, eq, e.key);
    assert RemoveOp(t, eq, listeners, e.key).entries == RemoveAt(t.entries, |done|);
    assert RemoveAt(t.entries, |done|) == done + rest[1..];
    RemoveAtUnique(t.entries, |done|);
    RemoveAtDistinguishes(t.entries, eq, |done|);
  }

  /** `setShouldRemove(fn)` leaves exactly the entries `fn` spares, in their
      insertion order, under `===` or an equivalence `areEqual`. */
  lemma SweepLeavesKept<F>(t: Table<F>, eq: Option<Equality>, listeners: seq<ListenerId>, fn: RemovalPolicy)
    requires KeysUnique(t.entries) && Distinguishes(t.entries, eq)
    ensures SweepOp(t, eq, listeners, fn, Keys(t.entries)).entries == Kept(t.entries, fn)
  {
    assert t.entries == [] + t.entries;
    SweepKeeps(t, eq, listeners, fn, [], t.entries);
  }

  // ---------------------------------------------------------------------
  // A custom `areEqual` that is an equivalence

  /** `areEqual` behaves as an equality: reflexive, symmetric, transitive. */
  ghost predicate Reflexive(eq: Equality) {
    forall a :: eq(a, a)
  }

  /** `a` relates to `b` and `b` to `c`. */
  ghost predicate Chain(eq: Equality, a: Key, b: Key, c: Key) {
    eq(a, b) && eq(b, c)
  }

  ghost predicate Equivalence(eq: Equality) {
    && Reflexive(eq)
    && (forall a, b :: eq(a, b) ==> eq(b, a))
    && (forall a, b, c :: Chain(eq, a, b, c) ==> eq(a, c))
  }

  /** No two stored keys are `areEqual`: each class has at most one entry. */
  ghost predicate ClassesDistinct<F>(entries: seq<Entry<F>>, eq: Equality) {
    forall i, j :: 0 <= i < |entries| && 0 <= j < |entries| && i != j ==> !eq(entries[i].key, entries[j].key)
  }

  /** The family's equality picks out one stored entry per key: always for
      `===`, and for a reflexive `areEqual` when classes are distinct. */
  ghost predicate Distinguishes<F>(entries: seq<Entry<F>>, eq: Option<Equality>) {
    eq.None? || (Reflexive(eq.value) && ClassesDistinct(entries, eq.value))
  }

  /** `===`, or a custom `areEqual` that is an equivalence. */
  ghost predicate Lawful(eq: Option<Equality>) {
    eq.None? || Equivalence(eq.value)
  }

  /** The invariant a family keeps: an equivalence `areEqual` never sees two
      stored keys it considers equal. */
  ghost predicate ClassesKept<F>(entries: seq<Entry<F>>, eq: Option<Equality>) {
    eq.Some? && Equivalence(eq.value) ==> ClassesDistinct(entries, eq.value)
  }

  /** A stored key is found at its own entry. */
  lemma FindStoredKey<F>(entries: seq<Entry<F>>, eq: Option<Equality>, k: Key)
    requires Distinguishes(entries, eq) && KeyIndex(entries, k).Some?
    ensures Find(entries, eq, k) == KeyIndex(entries, k)
  {
    if eq.Some? {
      var j := KeyIndex(entries, k).value;
      assert eq.value(entries[j].key, k);
      assert MatchIndex(entries, eq.value, k).Some?;
    }
  }

  /** Deleting an entry keeps classes distinct. */
  lemma RemoveAtDistinguishes<F>(entries: seq<Entry<F>>, eq: Option<Equality>, i: nat)
    requires i < |entries| && Distinguishes(entries, eq)
    ensures Distinguishes(RemoveAt(entries, i), eq)
  {
    if eq.Some? {
      var r := RemoveAt(entries, i);
      forall j, k | 0 <= j < |r| && 0 <= k < |r| && j != k ensures !eq.value(r[j].key, r[k].key) {
        var j' := if j < i then j else j + 1;
        var k' := if k < i then k else k + 1;
        assert r[j] == entries[j'];
        assert r[k] == entries[k'];
      }
    }
  }

  /** With an equivalence, removing the entry that matches `param` leaves no
      entry that matches it. */
  lemma RemoveMatchClearsClass<F>(entries: seq<Entry<F>>, eq: Equality, param: Key)
    requires Equivalence(eq) && ClassesDistinct(entries, eq)
    requires MatchIndex(entries, eq, param).Some?
    ensures MatchIndex(RemoveAt(entries, MatchIndex(entries, eq, param).value), eq, param).None?
  {
    var i := MatchIndex(entries, eq, param).value;
    var r := RemoveAt(entries, i);
    forall j | 0 <= j < |r| ensures !eq(r[j].key, param) {
      var j' := if j < i then j else j + 1;
      assert r[j] == entries[j'];
      if eq(entries[j'].key, param) {
        assert Chain(eq, entries[j'].key, param, entries[i].key);
      }
    }
  }

  /** With an equivalence, a param no stored key matches is not stored
      itself, and storing it keeps classes distinct. */
  lemma SetKeyUnmatched<F>(entries: seq<Entry<F>>, eq: Equality, k: Key, f: F, t: int)
    requires Equivalence(eq) && ClassesDistinct(entries, eq)
    requires MatchIndex(entries, eq, k).None?
    ensures KeyIndex(entries, k).None?
    ensures ClassesDistinct(SetKey(entries, k, f, t), eq)
  {
    var r := SetKey(entries, k, f, t);
    assert r == entries + [Entry(k, f, t)];
    forall i, j | 0 <= i < |r| && 0 <= j < |r| && i != j ensures !eq(r[i].key, r[j].key) {
      if i == |entries| {
        assert !eq(entries[j].key, k);
      } else if j == |entries| {
        assert !eq(entries[i].key, k);
      } else {
        assert r[i] == entries[i] && r[j] == entries[j];
      }
    }
  }

  /** `remove` keeps the family's invariant: unique keys, distinct classes
      and a duplicate-free membership set. */
  lemma RemoveOpValid<F>(t: Table<F>, eq: Option<Equality>, listeners: seq<ListenerId>, param: Key)
    requires KeysUnique(t.entries) && ClassesKept(t.entries, eq) && NoDup(t.members)
    ensures var r := RemoveOp(t, eq, listeners, param);
      KeysUnique(r.entries) && ClassesKept(r.entries, eq) && NoDup(r.members)
  {
    RemoveOpFacts(t, eq, listeners, param);
    RemoveOpKeepsClasses(t, eq, listeners, param);
    if Find(t.entries, eq, param).Some? {
      SetDeleteFacts(t.members, t.entries[Find(t.entries, eq, param).value].field);
    }
  }

  /** Every stored entry's field is a member of the form, and no field is
      stored under two keys. */
  ghost predicate FieldsTracked<F>(entries: seq<Entry<F>>, members: seq<F>) {
    && (forall i :: 0 <= i < |entries| ==> entries[i].field in members)
    && (forall i, j :: 0 <= i < j < |entries| ==> entries[i].field != entries[j].field)
  }

  /** `remove` keeps every stored field in the form: the deleted field is
      stored only under the deleted key. */
  lemma RemoveOpTracked<F>(t: Table<F>, eq: Option<Equality>, listeners: seq<ListenerId>, param: Key)
    requires FieldsTracked(t.entries, t.members)
    ensures var r := RemoveOp(t, eq, listeners, param); FieldsTracked(r.entries, r.members)
  {
    var m := Find(t.entries, eq, param);
    if m.Some? {
      var i := m.value;
      var x := t.entries[i].field;
      var es := RemoveAt(t.entries, i);
      assert RemoveOp(t, eq, listeners, param).entries == es;
      assert RemoveOp(t, eq, listeners, param).members == SetDelete(t.members, x);
      forall j | 0 <= j < |es| ensures es[j].field in SetDelete(t.members, x) {
        var j' := if j < i then j else j + 1;
        assert es[j] == t.entries[j'];
      }
      forall j, k | 0 <= j < k < |es| ensures es[j].field != es[k].field {
        var j' := if j < i then j else j + 1;
        var k' := if k < i then k else k + 1;
        assert es[j] == t.entries[j'] && es[k] == t.entries[k'];
      }
    }
  }

  /** Creating keeps every stored field in the form, when the field is the
      one already stored under `param`, or one stored under no key. */
  lemma CreateOpTracked<F>(t: Table<F>, listeners: seq<ListenerId>, param: Key, f: F, now: int)
    requires KeysUnique(t.entries) && FieldsTracked(t.entries, t.members)
    requires KeyIndex(t.entries, param).Some? ==> f == t.entries[KeyIndex(t.entries, param).value].field
    requires KeyIndex(t.entries, param).None? ==> forall i :: 0 <= i < |t.entries| ==> t.entries[i].field != f
    ensures var r := CreateOp(t, listeners, param, f, now); FieldsTracked(r.entries, r.members)
  {
    var r := CreateOp(t, listeners, param, f, now);
    match KeyIndex(t.entries, param)
    case Some(k) =>
      assert forall i :: 0 <= i < |r.entries| ==> r.entries[i].field == t.entries[i].field;
    case None =>
      assert r.entries == t.entries + [Entry(param, f, now)];
  }

  /** `remove` keeps an equivalence's classes distinct. */
  lemma RemoveOpKeepsClasses<F>(t: Table<F>, eq: Option<Equality>, listeners: seq<ListenerId>, param: Key)
    requires ClassesKept(t.entries, eq)
    ensures ClassesKept(RemoveOp(t, eq, listeners, param).entries, eq)
  {
    if eq.Some? && Equivalence(eq.value) && Find(t.entries, eq, param).Some? {
      RemoveAtDistinguishes(t.entries, eq, Find(t.entries, eq, param).value);
    }
  }

  /** Storing a key that no stored key matches keeps an equivalence's
      classes distinct; such a key is not stored already. */
  lemma CreateOpKeepsClasses<F>(t: Table<F>, eq: Option<Equality>, listeners: seq<ListenerId>, param: Key, f: F, now: int)
    requires ClassesKept(t.entries, eq)
    requires eq.Some? && Equivalence(eq.value) ==> MatchIndex(t.entries, eq.value, param).None?
    ensures ClassesKept(CreateOp(t, listeners, param, f, now).entries, eq)
    ensures eq.Some? && Equivalence(eq.value) ==> KeyIndex(t.entries, param).None?
  {
    if eq.Some? && Equivalence(eq.value) {
      SetKeyUnmatched(t.entries, eq.value, param, f, now);
    }
  }

  /** A listener that is not registered hears nothing. */
  lemma NotificationsOnlyReachListeners<F>(listeners: seq<ListenerId>, kind: EventKind, param: Key, f: F, l: ListenerId)
    requires l !in listeners
    ensures forall i :: 0 <= i < |listeners| ==> Notifications(listeners, kind, param, f)[i].listener != l
  {
  }

  /** The `for ... of entries()` loop with `break` that a custom `areEqual`
      uses: the first entry, in insertion order, whose key matches. */
  method ScanForMatch<F>(entries: seq<Entry<F>>, eq: Equality, param: Key) returns (r: Option<nat>)
    ensures r.Some? ==> r.value < |entries| && eq(entries[r.value].key, param)
    ensures r.Some? ==> forall j :: 0 <= j < r.value ==> !eq(entries[j].key, param)
    ensures r.None? ==> forall j :: 0 <= j < |entries| ==> !eq(entries[j].key, param)
    ensures r == MatchIndex(entries, eq, param)
  {
    r := None;
    var i := 0;
    while i < |entries|
      invariant 0 <= i <= |entries|
      invariant forall j :: 0 <= j < i ==> !eq(entries[j].key, param)
    {
      if eq(entries[i].key, param) {
        r := Some(i);
        break;
      }
      i := i + 1;
    }
    var m := MatchIndex(entries, eq, param);
    if r.Some? && m.Some? {
      assert !(r.value < m.value) && !(m.value < r.value);
    }
  }

  /** Notifying one more listener appends one event. */
  lemma {:induction false} NotificationsAppend<F>(ls: seq<ListenerId>, l: ListenerId, kind: EventKind, param: Key, f: F)
    ensures Notifications(ls + [l], kind, param, f) == Notifications(ls, kind, param, f) + [Event(l, kind, param, f)]
  {
    var a := Notifications(ls + [l], kind, param, f);
    var b := Notifications(ls, kind, param, f) + [Event(l, kind, param, f)];
    assert |a| == |b|;
    forall i | 0 <= i < |a| ensures a[i] == b[i] {
      assert (ls + [l])[i] == if i < |ls| then ls[i] else l;
    }
  }

  /** Every key other than `param` stored in `before` is stored in `after`
      with the same entry. */
  ghost predicate KeepsOthers<F>(before: seq<Entry<F>>, after: seq<Entry<F>>, param: Key) {
    forall k :: k != param && KeyIndex(before, k).Some? ==>
      KeyIndex(after, k).Some? && after[KeyIndex(after, k).value] == before[KeyIndex(before, k).value]
  }

  lemma KeepsOthersTrans<F>(a: seq<Entry<F>>, b: seq<Entry<F>>, c: seq<Entry<F>>, param: Key)
    requires KeepsOthers(a, b, param) && KeepsOthers(b, c, param)
    ensures KeepsOthers(a, c, param)
  {
    forall k | k != param && KeyIndex(a, k).Some?
      ensures KeyIndex(c, k).Some? && c[KeyIndex(c, k).value] == a[KeyIndex(a, k).value]
    {
      assert KeyIndex(b, k).Some?;
    }
  }

  /** With `===`, `remove(param)` leaves every other key's entry alone. */
  lemma RemoveOpDefaultKeepsAll<F>(t: Table<F>, listeners: seq<ListenerId>, param: Key)
    requires KeysUnique(t.entries)
    ensures KeepsOthers(t.entries, RemoveOp(t, None, listeners, param).entries, param)
  {
    forall k | k != param && KeyIndex(t.entries, k).Some?
      ensures var r := RemoveOp(t, None, listeners, param).entries;
        KeyIndex(r, k).Some? && r[KeyIndex(r, k).value] == t.entries[KeyIndex(t.entries, k).value]
    {
      RemoveOpDefaultKeepsOthers(t, listeners, param, k);
    }
  }

  /** Storing under `param` leaves every other key's entry alone. */
  lemma SetKeyKeepsAll<F>(entries: seq<Entry<F>>, param: Key, f: F, now: int)
    requires KeysUnique(entries)
    ensures KeepsOthers(entries, SetKey(entries, param, f, now), param)
  {
    forall k | k != param && KeyIndex(entries, k).Some?
      ensures var r := SetKey(entries, param, f, now);
        KeyIndex(r, k).Some? && r[KeyIndex(r, k).value] == entries[KeyIndex(entries, k).value]
    {
      SetKeyKeepsOthers(entries, param, f, now, k);
    }
  }

  /** With the default equality, `remove(param)` leaves the entry of every
      other live key as it was. */
  lemma RemoveOpDefaultKeepsOthers<F>(t: Table<F>, listeners: seq<ListenerId>, param: Key, k: Key)
    requires KeysUnique(t.entries)
    requires k != param && KeyIndex(t.entries, k).Some?
    ensures var r := RemoveOp(t, None, listeners, param).entries;
      KeyIndex(r, k).Some? && r[KeyIndex(r, k).value] == t.entries[KeyIndex(t.entries, k).value]
  {
    var m := KeyIndex(t.entries, k).value;
    match KeyIndex(t.entries, param)
    case None =>
    case Some(i) =>
      var r := RemoveAt(t.entries, i);
      assert RemoveOp(t, None, listeners, param).entries == r;
      var pos := if m < i then m else m - 1;
      assert r[pos] == t.entries[m];
      var q := KeyIndex(r, k).value;
      assert r[q] == t.entries[if q < i then q else q + 1];
  }

  /** `Map.set(param, ...)` leaves the entry of every other live key as it
      was. */
  lemma SetKeyKeepsOthers<F>(entries: seq<Entry<F>>, param: Key, f: F, now: int, k: Key)
    requires KeysUnique(entries)
    requires k != param && KeyIndex(entries, k).Some?
    ensures var r := SetKey(entries, param, f, now);
      KeyIndex(r, k).Some? && r[KeyIndex(r, k).value] == entries[KeyIndex(entries, k).value]
  {
    SetKeyFacts(entries, param, f, now);
    var r := SetKey(entries, param, f, now);
    var m := KeyIndex(entries, k).value;
    assert r[m] == entries[m];
  }

  /** With the default equality, `remove(param)` leaves no entry under
      `param`: a later lookup of `param` has to create one. */
  lemma RemoveOpDefaultDropsKey<F>(t: Table<F>, listeners: seq<ListenerId>, param: Key)
    requires KeysUnique(t.entries)
    ensures KeyIndex(RemoveOp(t, None, listeners, param).entries, param).None?
  {
    match KeyIndex(t.entries, param)
    case None =>
    case Some(i) =>
      var r := RemoveAt(t.entries, i);
      assert RemoveOp(t, None, listeners, param).entries == r;
  }
}
