/** The ordered set of row ids held by one bucket of the paging index (a
    Roaring64NavigableMap in the source). A bitmap is modelled by the ascending,
    duplicate-free listing of its elements, so that cardinality, positional
    selection and union can be computed, and two bitmaps with the same elements
    are the same value. */
module Bitmaps {

  /** Strictly increasing: ascending order without duplicates. */
  predicate Ascending(s: seq<int>) {
    forall i, j :: 0 <= i < j < |s| ==> s[i] < s[j]
  }

  /** The elements of a listing, as a set. */
  function Members(s: seq<int>): set<int> {
    set x | x in s
  }

  lemma {:induction false} AscendingMembersSize(s: seq<int>)
    requires Ascending(s)
    ensures |Members(s)| == |s|
  {
    if s != [] {
      assert Members(s) == {s[0]} + Members(s[1..]);
      assert s[0] !in Members(s[1..]);
      AscendingMembersSize(s[1..]);
    }
  }

  /** Exactly i elements of an ascending listing lie below its i-th entry. */
  lemma BelowPosition(s: seq<int>, i: int)
    requires Ascending(s) && 0 <= i < |s|
    ensures (set y | y in Members(s) && y < s[i]) == Members(s[..i])
    ensures |Members(s[..i])| == i
  {
    forall y | y in Members(s) && y < s[i] ensures y in Members(s[..i]) {
      var k :| 0 <= k < |s| && s[k] == y;
      assert k < i;
      assert s[..i][k] == y;
    }
    AscendingMembersSize(s[..i]);
  }

  /** Prepending an element below every member keeps a listing ascending. */
  lemma Prepend(x: int, s: seq<int>)
    requires Ascending(s)
    requires forall y :: y in Members(s) ==> x < y
    ensures Ascending([x] + s)
    ensures Members([x] + s) == {x} + Members(s)
  {
    forall i, j | 0 <= i < j < |[x] + s| ensures ([x] + s)[i] < ([x] + s)[j] {
      if i == 0 {
        assert ([x] + s)[j] == s[j - 1];
        assert s[j - 1] in Members(s);
      }
    }
  }

  /** An ascending listing is its least id followed by the ascending rest. */
  lemma Split(s: seq<int>)
    requires Ascending(s) && s != []
    ensures s == [s[0]] + s[1..]
    ensures Ascending(s[1..])
    ensures Members(s) == {s[0]} + Members(s[1..])
    ensures forall y :: y in Members(s[1..]) ==> s[0] < y
  {
    assert s == [s[0]] + s[1..];
  }

  /** Sorted insertion of one element (Roaring's add). */
  function Insert(s: seq<int>, x: int): (r: seq<int>)
    requires Ascending(s)
    ensures Ascending(r)
    ensures Members(r) == Members(s) + {x}
  {
    if s == [] then [x]
    else if x < s[0] then
      Split(s);
      Prepend(x, s);
      [x] + s
    else if x == s[0] then s
    else
      Split(s);
      var tail := Insert(s[1..], x);
      Prepend(s[0], tail);
      [s[0]] + tail
  }

  /** Merge of two ascending listings (Roaring's or). */
  function Merge(a: seq<int>, b: seq<int>): (r: seq<int>)
    requires Ascending(a) && Ascending(b)
    ensures Ascending(r)
    ensures Members(r) == Members(a) + Members(b)
    decreases |a| + |b|
  {
    if a == [] then b
    else if b == [] then a
    else if a[0] < b[0] then
      Split(a);
      Split(b);
      var tail := Merge(a[1..], b);
      Prepend(a[0], tail);
      [a[0]] + tail
    else if b[0] < a[0] then
      Split(a);
      Split(b);
      var tail := Merge(a, b[1..]);
      Prepend(b[0], tail);
      [b[0]] + tail
    else
      Split(a);
      Split(b);
      var tail := Merge(a[1..], b[1..]);
      Prepend(a[0], tail);
      [a[0]] + tail
  }

  /** Two ascending listings of the same set are equal. */
  lemma {:induction false} AscendingUnique(a: seq<int>, b: seq<int>)
    requires Ascending(a) && Ascending(b)
    requires Members(a) == Members(b)
    ensures a == b
  {
    AscendingMembersSize(a);
    AscendingMembersSize(b);
    if a != [] {
      Split(a);
      Split(b);
      assert a[0] in Members(b) && b[0] in Members(a);
      assert Members(a[1..]) == Members(b[1..]);
      AscendingUnique(a[1..], b[1..]);
    }
  }

  /** A bitmap: the ascending listing of its elements. */
  datatype Bitmap = Bitmap(ids: seq<int>) {

    /** Every Roaring bitmap is a set: its listing is ascending. */
    predicate Valid() {
      Ascending(ids)
    }

    /** The set the bitmap stands for. */
    function Elements(): set<int> {
      Members(ids)
    }

    /** getLongCardinality: the number of elements. */
    function Cardinality(): (n: nat)
      requires Valid()
      ensures n == |Elements()|
    {
      AscendingMembersSize(ids);
      |ids|
    }

    /** select(i): the i-th smallest element, counting from 0. */
    function Select(i: int): (x: int)
      requires Valid()
      requires 0 <= i < Cardinality()
      ensures x in Elements()
      ensures |set y | y in Elements() && y < x| == i
    {
      BelowPosition(ids, i);
      ids[i]
    }

    /** add(x): the bitmap with x inserted. */
    function Add(x: int): (r: Bitmap)
      requires Valid()
      ensures r.Valid()
      ensures r.Elements() == Elements() + {x}
    {
      Bitmap(Insert(ids, x))
    }

    /** or(other): the union of two bitmaps. */
    function Or(other: Bitmap): (r: Bitmap)
      requires Valid() && other.Valid()
      ensures r.Valid()
      ensures r.Elements() == Elements() + other.Elements()
    {
      Bitmap(Merge(ids, other.ids))
    }
  }

  /** new Roaring64NavigableMap(): the empty bitmap. */
  function Empty(): (b: Bitmap)
    ensures b.Valid() && b.Elements() == {}
  {
    Bitmap([])
  }

  /** A bitmap is determined by its elements. */
  lemma Canonical(a: Bitmap, b: Bitmap)
    requires a.Valid() && b.Valid()
    requires a.Elements() == b.Elements()
    ensures a == b
  {
    AscendingUnique(a.ids, b.ids);
  }

  lemma OrCommutative(a: Bitmap, b: Bitmap)
    requires a.Valid() && b.Valid()
    ensures a.Or(b) == b.Or(a)
  {
    Canonical(a.Or(b), b.Or(a));
  }

  lemma OrAssociative(a: Bitmap, b: Bitmap, c: Bitmap)
    requires a.Valid() && b.Valid() && c.Valid()
    ensures a.Or(b).Or(c) == a.Or(b.Or(c))
  {
    Canonical(a.Or(b).Or(c), a.Or(b.Or(c)));
  }

  lemma OrIdempotent(a: Bitmap)
    requires a.Valid()
    ensures a.Or(a) == a
  {
    Canonical(a.Or(a), a);
  }

  /** Or-ing into a fresh bitmap copies the argument. */
  lemma EmptyOr(a: Bitmap)
    requires a.Valid()
    ensures Empty().Or(a) == a
  {
    Canonical(Empty().Or(a), a);
  }
}
