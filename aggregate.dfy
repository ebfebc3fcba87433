/** The read side of the form atom (`internalFormAtom`): overall validity and
    the erroring fields that can take focus, in document order. */
module Aggregate {
  import opened Wrappers
  import opened Field

  /** The document: where the element a ref currently points at sits, or
      None when `ref.current` is null. Comparing positions stands for
      `compareDocumentPosition`; two refs at one position tie, as two refs
      to one element do. Distinct elements are not forced to distinct
      positions, and a nested element has its own position, so it is
      ordered where the comparator would report a tie. */
  type Positions = RefId -> Option<int>

  /** `every(isValid)`: the conjunction over all members, true for none. */
  function AllValid(fields: seq<FormField>): (r: bool)
    ensures r <==> forall i :: 0 <= i < |fields| ==> fields[i].isValid
  {
    if fields == [] then true else fields[0].isValid && AllValid(fields[1..])
  }

  /** The filter `showError && ref?.current`. */
  predicate Focusable(f: FormField, pos: Positions) {
    f.showError && f.ref.Some? && pos(f.ref.value).Some?
  }

  function PositionOf(f: FormField, pos: Positions): int
    requires Focusable(f, pos)
  {
    pos(f.ref.value).value
  }

  predicate AllFocusable(s: seq<FormField>, pos: Positions) {
    forall i :: 0 <= i < |s| ==> Focusable(s[i], pos)
  }

  /** Ascending document position. */
  predicate SortedByPosition(s: seq<FormField>, pos: Positions)
    requires AllFocusable(s, pos)
  {
    forall i, j :: 0 <= i < j < |s| ==> PositionOf(s[i], pos) <= PositionOf(s[j], pos)
  }

  /** The members that show an error and whose ref points at an element, in
      membership order. */
  function WithError(fields: seq<FormField>, pos: Positions): (r: seq<FormField>)
    ensures AllFocusable(r, pos)
    ensures forall x :: x in r <==> x in fields && Focusable(x, pos)
    ensures forall x :: multiset(r)[x] == if Focusable(x, pos) then multiset(fields)[x] else 0
  {
    if fields == [] then []
    else
      assert fields == [fields[0]] + fields[1..];
      (if Focusable(fields[0], pos) then [fields[0]] else []) + WithError(fields[1..], pos)
  }

  /** Insert `x` before the first element that does not precede it: the
      comparator returns 0 for one element compared with itself, and a stable
      sort keeps such pairs in their original order. */
  function Insert(x: FormField, s: seq<FormField>, pos: Positions): (r: seq<FormField>)
    requires Focusable(x, pos) && AllFocusable(s, pos)
    ensures AllFocusable(r, pos)
    ensures multiset(r) == multiset(s) + multiset{x}
    ensures |r| == |s| + 1 && (r[0] == x || (s != [] && r[0] == s[0]))
  {
    if s == [] then [x]
    else if PositionOf(x, pos) <= PositionOf(s[0], pos) then [x] + s
    else
      assert s == [s[0]] + s[1..];
      [s[0]] + Insert(x, s[1..], pos)
  }

  /** Inserting into a sorted list keeps it sorted. */
  lemma {:induction false} InsertSorted(x: FormField, s: seq<FormField>, pos: Positions)
    requires Focusable(x, pos) && AllFocusable(s, pos) && SortedByPosition(s, pos)
    ensures SortedByPosition(Insert(x, s, pos), pos)
  {
    if s != [] && PositionOf(x, pos) > PositionOf(s[0], pos) {
      InsertSorted(x, s[1..], pos);
      var rest := Insert(x, s[1..], pos);
      assert PositionOf(s[0], pos) <= PositionOf(rest[0], pos);
      assert Insert(x, s, pos) == [s[0]] + rest;
    }
  }

  /** A stable sort by document position. */
  function SortByPosition(s: seq<FormField>, pos: Positions): (r: seq<FormField>)
    requires AllFocusable(s, pos)
    ensures AllFocusable(r, pos) && SortedByPosition(r, pos)
    ensures multiset(r) == multiset(s)
  {
    if s == [] then []
    else
      assert s == [s[0]] + s[1..];
      var sorted := SortByPosition(s[1..], pos);
      InsertSorted(s[0], sorted, pos);
      Insert(s[0], sorted, pos)
  }

  /** `focusableFormFieldsWithError`: exactly the members showing an error
      with an attached element (each as often as in the membership), in
      ascending document position. */
  function FocusableWithError(fields: seq<FormField>, pos: Positions): (r: seq<FormField>)
    ensures AllFocusable(r, pos) && SortedByPosition(r, pos)
    ensures multiset(r) == multiset(WithError(fields, pos))
    ensures forall x :: x in r <==> x in fields && Focusable(x, pos)
  {
    var w := WithError(fields, pos);
    var r := SortByPosition(w, pos);
    SameMembers(r, w);
    r
  }

  /** Sequences with the same multiset have the same members. */
  lemma SameMembers<T>(a: seq<T>, b: seq<T>)
    requires multiset(a) == multiset(b)
    ensures forall x :: x in a <==> x in b
  {
    forall x ensures x in a <==> x in b {
      assert x in a <==> x in multiset(a);
      assert x in b <==> x in multiset(b);
    }
  }

  /** The fields of a list that sit at document position `p`, in list order. */
  function AtPosition(s: seq<FormField>, pos: Positions, p: int): (r: seq<FormField>)
    requires AllFocusable(s, pos)
    ensures forall i :: 0 <= i < |r| ==> Focusable(r[i], pos) && PositionOf(r[i], pos) == p
  {
    if s == [] then []
    else (if PositionOf(s[0], pos) == p then [s[0]] else []) + AtPosition(s[1..], pos, p)
  }

  function Here(x: FormField, pos: Positions, p: int): seq<FormField>
    requires Focusable(x, pos)
  {
    if PositionOf(x, pos) == p then [x] else []
  }

  lemma AtPositionCons(x: FormField, s: seq<FormField>, pos: Positions, p: int)
    requires Focusable(x, pos) && AllFocusable(s, pos)
    ensures AtPosition([x] + s, pos, p) == Here(x, pos, p) + AtPosition(s, pos, p)
  {
    assert ([x] + s)[0] == x && ([x] + s)[1..] == s;
  }

  /** The insertion step puts `x` in front of the fields at its position. */
  lemma {:induction false} InsertStable(x: FormField, s: seq<FormField>, pos: Positions, p: int)
    requires Focusable(x, pos) && AllFocusable(s, pos) && SortedByPosition(s, pos)
    ensures AtPosition(Insert(x, s, pos), pos, p) == Here(x, pos, p) + AtPosition(s, pos, p)
  {
    if s == [] {
      assert [x] + [] == [x];
      AtPositionCons(x, [], pos, p);
    } else if PositionOf(x, pos) <= PositionOf(s[0], pos) {
      assert Insert(x, s, pos) == [x] + s;
      AtPositionCons(x, s, pos, p);
    } else {
      var rest := Insert(x, s[1..], pos);
      InsertStable(x, s[1..], pos, p);
      assert Insert(x, s, pos) == [s[0]] + rest;
      AtPositionCons(s[0], rest, pos, p);
      assert s == [s[0]] + s[1..];
      AtPositionCons(s[0], s[1..], pos, p);
      assert Here(s[0], pos, p) == [] || Here(x, pos, p) == [];
      assert Here(s[0], pos, p) + Here(x, pos, p) == Here(x, pos, p) + Here(s[0], pos, p);
    }
  }

  /** The sort is stable: fields at one document position keep their
      relative order. */
  lemma {:induction false} SortStable(s: seq<FormField>, pos: Positions, p: int)
    requires AllFocusable(s, pos)
    ensures AtPosition(SortByPosition(s, pos), pos, p) == AtPosition(s, pos, p)
  {
    if s != [] {
      var sorted := SortByPosition(s[1..], pos);
      SortStable(s[1..], pos, p);
      InsertStable(s[0], sorted, pos, p);
    }
  }

  /** Erroring fields at one document position are focused in membership
      order. */
  lemma FocusableWithErrorStable(fields: seq<FormField>, pos: Positions, p: int)
    ensures AtPosition(FocusableWithError(fields, pos), pos, p) == AtPosition(WithError(fields, pos), pos, p)
  {
    SortStable(WithError(fields, pos), pos, p);
  }

  /** A member whose error is visible but that has no attached element is
      left out, not sorted last. */
  lemma DetachedNotFocusable(fields: seq<FormField>, pos: Positions, f: FormField)
    requires f.ref.None? || pos(f.ref.value).None?
    ensures f !in FocusableWithError(fields, pos)
  {
  }
}
