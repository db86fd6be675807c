/** The insertion-sorted array of ordered_array.c. */
module OrderedArrays {

  /** The first position from k on whose element is not below the item. */
  function Slot<T>(s: seq<T>, x: T, less: (T, T) -> bool, k: nat): (r: nat)
    requires k <= |s|
    ensures k <= r <= |s|
    ensures forall i :: k <= i < r ==> less(s[i], x)
    ensures r < |s| ==> !less(s[r], x)
    decreases |s| - k
  {
    if k == |s| || !less(s[k], x) then k else Slot(s, x, less, k + 1)
  }

  /** The sequence with x put in front of the element at k. */
  function InsertAt<T>(s: seq<T>, k: nat, x: T): seq<T>
    requires k <= |s|
  {
    s[..k] + [x] + s[k..]
  }

  function Inserted<T>(s: seq<T>, x: T, less: (T, T) -> bool): seq<T> {
    InsertAt(s, Slot(s, x, less, 0), x)
  }

  function RemoveAt<T>(s: seq<T>, k: nat): seq<T>
    requires k < |s|
  {
    s[..k] + s[k + 1..]
  }

  ghost predicate Distinct<T>(s: seq<T>) {
    forall i, j :: 0 <= i < j < |s| ==> s[i] != s[j]
  }

  /** The first position from k on that holds x; |s| if there is none. */
  function PositionOf<T(==)>(s: seq<T>, x: T, k: nat): (r: nat)
    requires k <= |s|
    ensures k <= r <= |s|
    ensures forall i :: k <= i < r ==> s[i] != x
    ensures r < |s| ==> s[r] == x
    decreases |s| - k
  {
    if k == |s| || s[k] == x then k else PositionOf(s, x, k + 1)
  }

  /** The sequence without the first x. */
  function Without<T(==)>(s: seq<T>, x: T): seq<T> {
    var k := PositionOf(s, x, 0);
    if k < |s| then RemoveAt(s, k) else s
  }

  /** No element is above a later one. */
  ghost predicate Sorted<T>(s: seq<T>, less: (T, T) -> bool) {
    forall i, j :: 0 <= i < j < |s| ==> !less(s[j], s[i])
  }

  /** less is a strict weak order: it is asymmetric and incomparability with respect to it is transitive. */
  ghost predicate WeakOrder<T(!new)>(less: (T, T) -> bool) {
    && (forall a, b :: less(a, b) ==> !less(b, a))
    && (forall a, b, c :: !less(a, b) && !less(b, c) ==> !less(a, c))
  }

  /** Insertion keeps the array sorted. */
  lemma InsertedSorted<T(!new)>(s: seq<T>, x: T, less: (T, T) -> bool)
    requires WeakOrder(less) && Sorted(s, less)
    ensures Sorted(Inserted(s, x, less), less)
  {
    var k := Slot(s, x, less, 0);
    var r := Inserted(s, x, less);
    forall i, j | 0 <= i < j < |r| ensures !less(r[j], r[i]) {
      if i < k && j == k {
        assert less(s[i], x);
      } else if i == k {
        assert !less(s[k], x) && r[j] == s[j - 1];
      }
    }
  }

  lemma InsertedMultiset<T>(s: seq<T>, x: T, less: (T, T) -> bool)
    ensures multiset(Inserted(s, x, less)) == multiset(s) + multiset{x}
  {
    var k := Slot(s, x, less, 0);
    assert s == s[..k] + s[k..];
  }

  lemma RemoveAtMultiset<T>(s: seq<T>, k: nat)
    requires k < |s|
    ensures multiset(RemoveAt(s, k)) == multiset(s) - multiset{s[k]}
  {
    assert s == s[..k] + [s[k]] + s[k + 1..];
  }

  lemma RemoveAtSorted<T>(s: seq<T>, k: nat, less: (T, T) -> bool)
    requires k < |s| && Sorted(s, less)
    ensures Sorted(RemoveAt(s, k), less)
  {
  }

  /** Two orders that agree on the item and the elements of s put the item at the same place. */
  lemma {:induction false} SlotAgrees<T>(s: seq<T>, x: T, less: (T, T) -> bool, less': (T, T) -> bool, k: nat)
    requires k <= |s|
    requires forall i :: 0 <= i < |s| ==> less(s[i], x) == less'(s[i], x)
    ensures Slot(s, x, less, k) == Slot(s, x, less', k)
    decreases |s| - k
  {
    if k < |s| {
      SlotAgrees(s, x, less, less', k + 1);
    }
  }

  lemma InsertedMembers<T>(s: seq<T>, x: T, less: (T, T) -> bool)
    ensures forall y :: y in Inserted(s, x, less) <==> y == x || y in s
  {
    var k := Slot(s, x, less, 0);
    assert s == s[..k] + s[k..];
  }

  lemma InsertedDistinct<T>(s: seq<T>, x: T, less: (T, T) -> bool)
    requires Distinct(s) && x !in s
    ensures Distinct(Inserted(s, x, less))
  {
  }

  lemma RemoveAtMembers<T>(s: seq<T>, k: nat)
    requires k < |s| && Distinct(s)
    ensures forall y :: y in RemoveAt(s, k) <==> y != s[k] && y in s
    ensures Distinct(RemoveAt(s, k))
  {
    assert s == s[..k] + [s[k]] + s[k + 1..];
  }

  lemma InsertedIs<T>(r: seq<T>, s: seq<T>, x: T, less: (T, T) -> bool, k: nat)
    requires k == Slot(s, x, less, 0) && |r| == |s| + 1 && r[k] == x
    requires forall j :: 0 <= j < k ==> r[j] == s[j]
    requires forall j :: k < j < |r| ==> r[j] == s[j - 1]
    ensures r == Inserted(s, x, less)
  {
  }

  class OrderedArray<T(0)> {
    const cells: array<T>
    var size: nat

    ghost predicate Valid()
      reads this
    {
      size <= cells.Length
    }

    ghost function Contents(): seq<T>
      reads this, cells
      requires Valid()
    {
      cells[..size]
    }

    constructor (maxSize: nat)
      ensures Valid() && fresh(cells) && cells.Length == maxSize && Contents() == []
    {
      cells := new T[maxSize];
      size := 0;
    }

    method Insert(item: T, less: (T, T) -> bool)
      requires Valid() && size < cells.Length
      modifies this`size, cells
      ensures Valid() && size == old(size) + 1 && Contents() == Inserted(old(Contents()), item, less)
    {
      hide InsertAt, Inserted;
      ghost var was := Contents();
      var i := 0;
      while i < size && less(cells[i], item)
        invariant i <= size && Slot(was, item, less, 0) == Slot(was, item, less, i)
      {
        i := i + 1;
      }
      ghost var k := i;
      assert k == Slot(was, item, less, 0);
      if i == size {
        cells[size] := item;
        size := size + 1;
      } else {
        var tmp := cells[i];
        cells[i] := item;
        while i < size
          invariant k <= i <= size && size < cells.Length && size == old(size)
          invariant forall j :: 0 <= j < k ==> cells[j] == was[j]
          invariant cells[k] == item
          invariant forall j :: k < j <= i ==> cells[j] == was[j - 1]
          invariant forall j :: i < j < size ==> cells[j] == was[j]
          invariant i < size ==> tmp == was[i]
        {
          i := i + 1;
          var tmp2 := cells[i];
          cells[i] := tmp;
          tmp := tmp2;
        }
        size := size + 1;
      }
      InsertedIs(Contents(), was, item, less, k);
    }

    /** The removing loop reads one cell past the last element, so the array must not be full. */
    method Remove(k: nat)
      requires Valid() && k < size < cells.Length
      modifies this`size, cells
      ensures Valid() && size == old(size) - 1 && Contents() == RemoveAt(old(Contents()), k)
    {
      ghost var was := Contents();
      var i := k;
      while i < size
        invariant k <= i <= size && size == old(size)
        invariant forall j :: 0 <= j < k ==> cells[j] == was[j]
        invariant forall j :: k <= j < i && j + 1 < size ==> cells[j] == was[j + 1]
        invariant forall j :: i <= j < size ==> cells[j] == was[j]
      {
        cells[i] := cells[i + 1];
        i := i + 1;
      }
      size := size - 1;
    }

    method Lookup(k: nat) returns (x: T)
      requires Valid() && k < size
      ensures x == Contents()[k]
    {
      x := cells[k];
    }
  }
}
