/** The fit search of the heap, and exactly which calls keep the index of holes sorted by size. */
module HeapOrder {
  import opened Machine
  import opened OrderedArrays
  import opened Tiling
  import opened HeapSpec
  import opened HeapInvariant
  import opened HeapTheorems

  // ---------------------------------------------------------------- fit

  /** find_smallest_hole fails for an unaligned request exactly when no hole is large enough. */
  lemma SearchFails(h: Heap, n: int)
    requires Inv(h)
    ensures Search(h, n, false, 0) == |h.index| <==> forall a :: a in h.holes ==> SizeOf(h.sizes, a) < n
  {
    hide Tiles, Coalesced, SizeOf;
    var k := Search(h, n, false, 0);
    if k < |h.index| {
      assert h.index[k] in h.index;
    }
  }

  ghost predicate SortedBySize(h: Heap) {
    Sorted(h.index, SizeLess(h.sizes))
  }

  /** While the index is sorted, the hole found is one of least sufficient size. */
  lemma SearchBestFit(h: Heap, n: int)
    requires Inv(h) && SortedBySize(h) && Search(h, n, false, 0) < |h.index|
    ensures var a := h.index[Search(h, n, false, 0)];
      n <= SizeOf(h.sizes, a)
      && forall b :: b in h.holes && n <= SizeOf(h.sizes, b) ==> SizeOf(h.sizes, a) <= SizeOf(h.sizes, b)
  {
    hide Tiles, Coalesced, SizeOf;
    var k := Search(h, n, false, 0);
    forall b | b in h.holes && n <= SizeOf(h.sizes, b) ensures SizeOf(h.sizes, h.index[k]) <= SizeOf(h.sizes, b) {
      assert b in h.index;
      var j :| 0 <= j < |h.index| && h.index[j] == b;
      assert !(j < k);
      assert j == k || !SizeLess(h.sizes)(h.index[j], h.index[k]);
    }
  }

  // ---------------------------------------------------------------- resizing in place

  /** At the place of a in the index, a hole of the given size is neither before a smaller nor behind a larger one. */
  predicate InPlace(index: seq<int>, a: int, size: int, c: Chunks) {
    forall i, j :: 0 <= i < j < |index| ==>
      (index[i] == a ==> size <= SizeOf(c, index[j])) && (index[j] == a ==> SizeOf(c, index[i]) <= size)
  }

  /** The index is sorted if a is disregarded. */
  ghost predicate SortedApart(index: seq<int>, a: int, c: Chunks) {
    forall i, j :: 0 <= i < j < |index| && index[i] != a && index[j] != a ==> SizeOf(c, index[i]) <= SizeOf(c, index[j])
  }

  ghost predicate SameApart(index: seq<int>, a: int, c: Chunks, c': Chunks) {
    forall b :: b in index && b != a ==> SizeOf(c', b) == SizeOf(c, b)
  }

  lemma SortedIsApart(h: Heap, a: int)
    requires SortedBySize(h)
    ensures SortedApart(h.index, a, h.sizes)
  {
    forall i, j | 0 <= i < j < |h.index| ensures SizeOf(h.sizes, h.index[i]) <= SizeOf(h.sizes, h.index[j]) {
      assert !SizeLess(h.sizes)(h.index[j], h.index[i]);
    }
  }

  /** After the size of one entry is changed, the index is sorted exactly if the new size is in place. */
  lemma ResizedExact(index: seq<int>, a: int, c: Chunks, c': Chunks)
    requires Distinct(index) && SortedApart(index, a, c) && SameApart(index, a, c, c')
    ensures Sorted(index, SizeLess(c')) <==> InPlace(index, a, SizeOf(c', a), c)
  {
    hide SizeOf;
    if Sorted(index, SizeLess(c')) {
      forall i, j | 0 <= i < j < |index|
        ensures (index[i] == a ==> SizeOf(c', a) <= SizeOf(c, index[j]))
        ensures (index[j] == a ==> SizeOf(c, index[i]) <= SizeOf(c', a))
      {
        assert !SizeLess(c')(index[j], index[i]) && index[i] in index && index[j] in index && index[i] != index[j];
      }
    }
    if InPlace(index, a, SizeOf(c', a), c) {
      forall i, j | 0 <= i < j < |index| ensures !SizeLess(c')(index[j], index[i]) {
        assert index[i] in index && index[j] in index && index[i] != index[j];
      }
    }
  }

  /** An insertion leaves a sorted index sorted and an unsorted one unsorted. */
  lemma InsertSortedExact(index: seq<int>, a: int, c: Chunks)
    ensures Sorted(IndexInsert(index, a, c), SizeLess(c)) <==> Sorted(index, SizeLess(c))
  {
    var less := SizeLess(c);
    var r := IndexInsert(index, a, c);
    if Sorted(index, less) {
      InsertedSorted(index, a, less);
    }
    if Sorted(r, less) {
      var k := Slot(index, a, less, 0);
      forall i, j | 0 <= i < j < |index| ensures !less(index[j], index[i]) {
        var i', j' := if i < k then i else i + 1, if j < k then j else j + 1;
        assert r[i'] == index[i] && r[j'] == index[j];
      }
    }
  }

  /** The index without one entry is sorted if it is sorted apart from that entry. */
  lemma RemovedSorted(index: seq<int>, k: nat, c: Chunks, c': Chunks)
    requires k < |index| && Distinct(index) && SortedApart(index, index[k], c) && SameApart(index, index[k], c, c')
    ensures Sorted(RemoveAt(index, k), SizeLess(c'))
  {
    hide SizeOf;
    var r := RemoveAt(index, k);
    forall i, j | 0 <= i < j < |r| ensures !SizeLess(c')(r[j], r[i]) {
      var i', j' := if i < k then i else i + 1, if j < k then j else j + 1;
      assert r[i] == index[i'] && r[j] == index[j'] && index[i'] in index && index[j'] in index;
    }
  }

  // ---------------------------------------------------------------- carving

  lemma CarvedSizes(h: Heap, k: nat, n: int, align: bool)
    requires Inv(h) && k < |h.index| && TAGS <= n && n <= SizeOf(h.sizes, h.index[k])
    requires align ==> AlignedFits(h.index[k], SizeOf(h.sizes, h.index[k]), n)
    ensures SameApart(h.index, h.index[k], h.sizes, Carved(h, k, n, align).sizes)
  {
    hide Tiles, Coalesced, Pieces, PieceHoles, RestOf, BlockSize, FrontSize;
    var a := h.index[k];
    HoleBounds(h, k);
    PiecesInside(h, k, n, align);
    forall b | b in h.index && b != a ensures SizeOf(Carved(h, k, n, align).sizes, b) == SizeOf(h.sizes, b) {
      if b in Pieces(a, h.sizes[a], n, align) {
        InsideChunk(h, a, b);
      }
    }
  }

  /** An unaligned carving leaves the index sorted, whatever the size of the carved hole. */
  lemma CarvedSorted(h: Heap, k: nat, n: int)
    requires Inv(h) && k < |h.index| && SortedApart(h.index, h.index[k], h.sizes)
    requires TAGS <= n <= SizeOf(h.sizes, h.index[k])
    ensures SortedBySize(Carved(h, k, n, false))
  {
    hide Tiles, Coalesced, Pieces, PieceHoles, RestOf, BlockSize, Sorted, IndexInsert, RemoveAt, SortedApart, SameApart;
    var a := h.index[k];
    CarvedSizes(h, k, n, false);
    var g := Carved(h, k, n, false);
    RemovedSorted(h.index, k, h.sizes, g.sizes);
    InsertSortedExact(RemoveAt(h.index, k), Wrap(a + BlockSize(SizeOf(h.sizes, a), n)), g.sizes);
  }

  /** A page-aligned carving keeps the index sorted exactly if the front hole is in place where the whole hole was. */
  lemma CarvedSortedExact(h: Heap, k: nat, n: int)
    requires Inv(h) && k < |h.index| && SortedApart(h.index, h.index[k], h.sizes)
    requires TAGS <= n && AlignedFits(h.index[k], SizeOf(h.sizes, h.index[k]), n)
    ensures SortedBySize(Carved(h, k, n, true)) <==> InPlace(h.index, h.index[k], FrontSize(h.index[k]), h.sizes)
  {
    hide Tiles, Coalesced, Pieces, PieceHoles, RestOf, BlockSize, Sorted, IndexInsert, SortedApart, SameApart;
    hide FrontSize, InPlace;
    var a := h.index[k];
    HoleBounds(h, k);
    AlignedSizes(a, h.sizes[a], n);
    PiecesAligned(a, h.sizes[a], n);
    CarvedSizes(h, k, n, true);
    var g := Carved(h, k, n, true);
    assert g.sizes[a] == FrontSize(a);
    ResizedExact(h.index, a, h.sizes, g.sizes);
    InsertSortedExact(h.index, Wrap(BlockOf(a, true) + BlockSize(h.sizes[a], n)), g.sizes);
  }

  // ---------------------------------------------------------------- growth

  /** What growth does to the index and to the sizes in it. */
  lemma GrownIndex(h: Heap, n: int)
    requires Inv(h) && TAGS <= n && ExpandAsserts(h, n) && GrowthInRange(h, n) && EndHoleAbuts(h)
    ensures var g := Grown(h, n); var a := EndHole(h);
      && g.index == (if h.index == [] then [a] else h.index) && EndHole(g) == a
      && SameApart(g.index, a, h.sizes, g.sizes) && Distinct(g.index)
      && SizeOf(g.sizes, a) == SizeOf(h.sizes, a) + (g.end - h.end)
  {
    hide ExpandAsserts, GrowthInRange, Grown, Coalesced, IndexInsert;
    var added := GrowthAmount(h, n);
    GrownKeepsInv(h, n);
    var g := Grown(h, n);
    EndHolePlace(h);
    if h.index == [] {
      AppendHole(h, added);
    } else {
      WrapSmall(SizeOf(h.sizes, EndHole(h)) + added);
    }
  }

  lemma EndHolePlace(h: Heap)
    requires Inv(h) && EndHoleAbuts(h)
    ensures h.index == [] ==> EndHole(h) == h.end && SizeOf(h.sizes, h.end) == 0
    ensures h.index != [] ==>
      EndHole(h) in h.index && 0 <= EndHole(h) && EndHole(h) + SizeOf(h.sizes, EndHole(h)) == h.end
  {
    if h.index != [] {
      HoleBounds(h, Endmost(h.index));
    } else {
      assert h.end !in h.sizes by {
        assert forall a :: a in h.sizes ==> TAGS <= h.sizes[a] && a + h.sizes[a] <= h.end;
      }
    }
  }

  /** Growth keeps the index sorted exactly if the new size of the end hole is in place. */
  lemma GrownSortedExact(h: Heap, n: int)
    requires Inv(h) && SortedBySize(h)
    requires TAGS <= n && ExpandAsserts(h, n) && GrowthInRange(h, n) && EndHoleAbuts(h)
    ensures SortedBySize(Grown(h, n)) <==>
      InPlace(h.index, EndHole(h), SizeOf(h.sizes, EndHole(h)) + (Grown(h, n).end - h.end), h.sizes)
  {
    hide Inv, ExpandAsserts, GrowthInRange, EndHoleAbuts, Grown, EndHole, SizeOf;
    GrownIndex(h, n);
    SortedIsApart(h, EndHole(h));
    if h.index != [] {
      ResizedExact(h.index, EndHole(h), h.sizes, Grown(h, n).sizes);
    }
  }

  // ---------------------------------------------------------------- alloc

  /** The hole out of which alloc takes the block: the one found, or the end hole after it has grown. */
  function Taken(h: Heap, n: int, align: bool): int {
    var k := Search(h, n, align, 0);
    if k < |h.index| then h.index[k] else EndHole(h)
  }

  /** After growth only the end hole can fit. */
  lemma TakenAfterGrowth(h: Heap, n: int, align: bool)
    requires Inv(h) && Search(h, n, align, 0) == |h.index|
    requires TAGS <= n && ExpandAsserts(h, n) && GrowthInRange(h, n) && EndHoleAbuts(h)
    ensures var g := Grown(h, n); var a := Taken(h, n, align);
      && Taken(g, n, align) == a
      && (SortedApart(h.index, a, h.sizes) ==> SortedApart(g.index, a, g.sizes))
      && forall s :: InPlace(g.index, a, s, g.sizes) <==> InPlace(h.index, a, s, h.sizes)
  {
    hide Inv, ExpandAsserts, GrowthInRange, EndHoleAbuts, Grown, EndHole, SizeOf, Fits;
    GrownIndex(h, n);
    var g, a := Grown(h, n), EndHole(h);
    var k := Search(g, n, align, 0);
    if k < |g.index| && h.index != [] {
      assert g.index[k] in g.index;
      assert !Fits(h.index[k], SizeOf(h.sizes, h.index[k]), n, align);
    }
    if h.index != [] {
      SameOrder(h.index, a, h.sizes, g.sizes);
    }
  }

  lemma SameOrder(index: seq<int>, a: int, c: Chunks, c': Chunks)
    requires SameApart(index, a, c, c') && Distinct(index)
    ensures SortedApart(index, a, c) ==> SortedApart(index, a, c')
    ensures forall s :: InPlace(index, a, s, c') <==> InPlace(index, a, s, c)
  {
    hide SizeOf;
    forall i | 0 <= i < |index| && index[i] != a ensures SizeOf(c', index[i]) == SizeOf(c, index[i]) {
      assert index[i] in index;
    }
  }

  /**
   * alloc, growth and recursion included, leaves a sorted index sorted if the request is not aligned. For an aligned
   * request it does exactly if the front hole is in place where the hole was that the block is taken from.
   */
  lemma {:induction false} AllocSortedExact(h: Heap, n: int, align: bool)
    requires Inv(h) && TAGS <= n < TWO32 && AllocReady(h, n, align) && Alloc(h, n, align).Allocated?
    requires SortedApart(h.index, Taken(h, n, align), h.sizes)
    ensures SortedBySize(Alloc(h, n, align).heap) <==>
      (align ==> InPlace(h.index, Taken(h, n, align), FrontSize(Taken(h, n, align)), h.sizes))
    decreases TWO32 - h.end
  {
    hide Inv, SortedBySize, SortedApart, InPlace, FrontSize, Grown, Carved, GrowthInRange, EndHoleAbuts, ExpandAsserts;
    hide EndHole, SizeOf;
    var k := Search(h, n, align, 0);
    if k == |h.index| {
      TakenAfterGrowth(h, n, align);
      GrownKeepsInv(h, n);
      AllocSortedExact(Grown(h, n), n, align);
    } else if align {
      CarvedSortedExact(h, k, n);
    } else {
      CarvedSorted(h, k, n);
    }
  }

  // ---------------------------------------------------------------- free

  /** The index without the entry of the hole that free merges from the right. */
  function KeptIndex(h: Heap, a: int): seq<int> {
    if MergesRight(h, a) then Without(h.index, a + SizeOf(h.sizes, a)) else h.index
  }

  /**
   * free leaves a sorted index sorted if it does not merge to the left. If it does, the hole on the left takes its new
   * size at its old place, and the index stays sorted exactly if that size is in place there.
   */
  lemma FreedSortedExact(h: Heap, a: int)
    requires Inv(h) && SortedBySize(h) && BlockAt(h, a)
    ensures SortedBySize(Freed(h, a)) <==>
      (MergesLeft(h, a) ==> InPlace(KeptIndex(h, a), MergedLo(h, a), FreedSize(h, a), h.sizes))
  {
    hide Inv, Coalesced, MergedLo, MergedHi, MergesLeft, MergesRight, FreedSize, FreedLength, Sorted, IndexInsert;
    hide Without, SizeOf, Splice, SpliceHoles, InPlace, SortedApart, SameApart;
    var lo, f, kept := MergedLo(h, a), Freed(h, a), KeptIndex(h, a);
    KeptSorted(h, a);
    KeptSizes(h, a);
    if MergesLeft(h, a) {
      ResizedExact(kept, lo, h.sizes, f.sizes);
    } else {
      InsertSortedExact(kept, lo, f.sizes);
      SameSorted(h, a);
    }
  }

  /** Without a merge to the left the freed block is not in the index, so no size in the index changes. */
  lemma SameSorted(h: Heap, a: int)
    requires Inv(h) && BlockAt(h, a) && !MergesLeft(h, a)
    requires Sorted(KeptIndex(h, a), SizeLess(h.sizes))
    requires SameApart(KeptIndex(h, a), MergedLo(h, a), h.sizes, Freed(h, a).sizes)
    requires forall b :: b in KeptIndex(h, a) ==> b in h.holes
    ensures Sorted(KeptIndex(h, a), SizeLess(Freed(h, a).sizes))
  {
    hide Inv, MergedHi, MergesLeft, MergesRight, FreedSize, FreedLength, Freed, SizeOf, KeptIndex;
    var index, c, c' := KeptIndex(h, a), h.sizes, Freed(h, a).sizes;
    forall i, j | 0 <= i < j < |index| ensures !SizeLess(c')(index[j], index[i]) {
      assert index[i] in index && index[j] in index && !SizeLess(c)(index[j], index[i]);
    }
  }

  lemma KeptSorted(h: Heap, a: int)
    requires Inv(h) && SortedBySize(h) && BlockAt(h, a)
    ensures Sorted(KeptIndex(h, a), SizeLess(h.sizes)) && Distinct(KeptIndex(h, a))
    ensures forall x :: SortedApart(KeptIndex(h, a), x, h.sizes)
    ensures forall b :: b in KeptIndex(h, a) <==> b in h.holes && !(MergesRight(h, a) && b == a + SizeOf(h.sizes, a))
  {
    hide Tiles, Coalesced, SizeLess, Sorted, SizeOf, SortedApart;
    if MergesRight(h, a) {
      var k := PositionOf(h.index, a + SizeOf(h.sizes, a), 0);
      RemoveAtMembers(h.index, k);
      RemoveAtSorted(h.index, k, SizeLess(h.sizes));
    }
    forall x ensures SortedApart(KeptIndex(h, a), x, h.sizes) {
      SortedIsApart(h.(index := KeptIndex(h, a)), x);
    }
  }

  lemma KeptSizes(h: Heap, a: int)
    requires Inv(h) && BlockAt(h, a)
    requires forall b :: b in KeptIndex(h, a) <==> b in h.holes && !(MergesRight(h, a) && b == a + SizeOf(h.sizes, a))
    ensures SameApart(KeptIndex(h, a), MergedLo(h, a), h.sizes, Freed(h, a).sizes)
    ensures SizeOf(Freed(h, a).sizes, MergedLo(h, a)) == FreedSize(h, a)
    ensures Freed(h, a).index ==
      if MergesLeft(h, a) then KeptIndex(h, a) else IndexInsert(KeptIndex(h, a), MergedLo(h, a), Freed(h, a).sizes)
  {
    hide Tiles, Coalesced, Indexed, MergedLo, MergedHi, MergesRight, FreedSize, FreedLength, IndexInsert, Without;
    MergedBounds(h, a);
    forall b | b in KeptIndex(h, a) && b != MergedLo(h, a) ensures SizeOf(Freed(h, a).sizes, b) == SizeOf(h.sizes, b) {
      if MergedLo(h, a) <= b < MergedHi(h, a) {
        MergedChunks(h, a, b);
      }
    }
  }
}
