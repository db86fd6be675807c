/** What the invariant, alloc and free give to the callers of the heap, and where their conditions are exact. */
module HeapTheorems {
  import opened Machine
  import opened OrderedArrays
  import opened Tiling
  import opened HeapSpec
  import opened HeapInvariant

  // ---------------------------------------------------------------- alloc, then free

  /** Around a carved hole there are blocks or the bounds of the heap. */
  lemma HoleNeighbours(h: Heap, a: int)
    requires Inv(h) && a in h.holes
    ensures a in h.sizes && TAGS <= h.sizes[a] && PAGE <= a && a + h.sizes[a] <= h.end < TWO32
    ensures forall b :: b in h.holes ==> b in h.sizes && b + h.sizes[b] != a
    ensures a + h.sizes[a] !in h.holes
    ensures forall b :: b in h.sizes && b != a ==> b < a || a + h.sizes[a] <= b
  {
  }

  /** Freeing the block just carved out of the hole at a merges exactly its pieces. */
  lemma CarvedMerge(h: Heap, k: nat, n: int)
    requires Inv(h) && k < |h.index| && TAGS <= n <= SizeOf(h.sizes, h.index[k])
    ensures var a := h.index[k]; var g := Carved(h, k, n, false);
      BlockAt(g, a) && MergedLo(g, a) == a && !MergesLeft(g, a) && MergedHi(g, a) == a + SizeOf(h.sizes, a)
      && (MergesRight(g, a) <==> SizeOf(h.sizes, a) >= n + TAGS)
      && (MergesRight(g, a) ==> a + g.sizes[a] == a + n)
  {
    hide Tiles, Coalesced, Indexed, Pieces, PieceHoles, NewHoles, NewIndex, RestOf, BlockSize, MergesLeft, MergesRight;
    hide MergedLo, MergedHi;
    var a := h.index[k];
    var g := Carved(h, k, n, false);
    HoleBounds(h, k);
    var size := h.sizes[a];
    HoleNeighbours(h, a);
    CarvedPlain(h, k, n);
    CarvedBlocks(h, k, n, false);
    CarvedHoles(h, k, n, false);
    if size < n + TAGS {
      PiecesWhole(a, size, n);
    } else {
      PiecesSplit(a, size, n);
    }
    MergedBounds(g, a);
    MergedBoundsExact(g, a);
    assert forall b :: b in g.holes ==> b == a + n || b in h.holes;
  }

  lemma MergedBoundsExact(h: Heap, a: int)
    requires Inv(h) && BlockAt(h, a)
    ensures MergesRight(h, a) <==> a + h.sizes[a] in h.holes
    ensures MergedHi(h, a) ==
      if MergesRight(h, a) then a + h.sizes[a] + SizeOf(h.sizes, a + h.sizes[a]) else a + h.sizes[a]
  {
  }

  /**
   * alloc, then free of its result, is the identity on the chunks, when alloc neither grows the heap nor
   * aligns the block and the chosen hole does not reach the end of the heap.
   */
  lemma AllocThenFree(h: Heap, n: int)
    requires Inv(h) && TAGS <= n
    requires var k := Search(h, n, false, 0); k < |h.index| && h.index[k] + SizeOf(h.sizes, h.index[k]) != h.end
    ensures AllocReady(h, n, false) && Alloc(h, n, false).Allocated?
    ensures var r := Alloc(h, n, false);
      && BlockAt(r.heap, r.block) && FreeReady(r.heap, r.block)
      && var f := Freed(r.heap, r.block);
      && f.start == h.start && f.end == h.end && f.max == h.max
      && f.sizes == h.sizes && f.holes == h.holes && (forall a :: a in f.index <==> a in h.index)
  {
    hide Inv, BlockAt, MergedLo, MergedHi, MergesLeft, MergesRight, Freed, Carved;
    var k := Search(h, n, false, 0);
    var a := h.index[k];
    var g := Carved(h, k, n, false);
    CarvedMerge(h, k, n);
    CarvedPlain(h, k, n);
    CarvedEnd(h, k, n);
    FreedBack(h, k, n);
    FreedKeepsInv(g, a);
    SameMembers(h, Freed(g, a));
  }

  lemma CarvedEnd(h: Heap, k: nat, n: int)
    requires k < |h.index|
    ensures Carved(h, k, n, false).end == h.end
  {
  }

  lemma SameMembers(h: Heap, g: Heap)
    requires Inv(h) && Inv(g) && g.holes == h.holes
    ensures forall a :: a in g.index <==> a in h.index
  {
    hide Tiles, Coalesced;
    assert forall a :: a in g.index <==> a in g.holes;
  }

  lemma FreedBack(h: Heap, k: nat, n: int)
    requires Inv(h) && k < |h.index| && TAGS <= n <= SizeOf(h.sizes, h.index[k])
    requires h.index[k] + SizeOf(h.sizes, h.index[k]) != h.end
    ensures var g := Carved(h, k, n, false); var a := h.index[k];
      BlockAt(g, a)
      && var f := Freed(g, a);
         f.sizes == h.sizes && f.holes == h.holes && f.end == h.end && f.start == h.start && f.max == h.max
  {
    hide Tiles, Coalesced, Indexed, Pieces, PieceHoles, NewHoles, NewIndex, RestOf, BlockSize, MergesLeft, MergesRight;
    hide MergedLo, MergedHi;
    hide Splice, SpliceHoles, Without, IndexInsert;
    var a := h.index[k];
    var g := Carved(h, k, n, false);
    HoleBounds(h, k);
    var size := h.sizes[a];
    CarvedMerge(h, k, n);
    CarvedHoles(h, k, n, false);
    PiecesInside(h, k, n, false);
    WrapSmall(size);
    WrapSmall(h.end);
    SpliceBack(h, a, Pieces(a, size, n, false), PieceHoles(a, size, n, false));
  }

  /** Replacing the pieces of a hole by one hole of its size restores the chunks. */
  lemma SpliceBack(h: Heap, a: int, d: Chunks, dHoles: set<int>)
    requires Inv(h) && a in h.holes && dHoles <= d.Keys && a in d
    requires forall x :: x in d ==> a <= x < a + SizeOf(h.sizes, a)
    ensures Splice(h.sizes + d, a, a + h.sizes[a], map[a := h.sizes[a]]) == h.sizes
    ensures SpliceHoles(h.holes - {a} + dHoles, a, a + h.sizes[a], {a}) == h.holes
  {
    HoleNeighbours(h, a);
    hide Inv;
  }

  /** The block that alloc makes has room for the request exactly if adding the tags to its size does not wrap. */
  lemma RequestExact(h: Heap, k: nat, size: int, align: bool)
    requires Inv(h) && k < |h.index| && 0 <= size < TWO32 && Wrap(size + TAGS) <= SizeOf(h.sizes, h.index[k])
    ensures var g := Carved(h, k, Wrap(size + TAGS), align); var block := BlockOf(h.index[k], align);
      block in g.sizes && (size <= g.sizes[block] - TAGS <==> size + TAGS < TWO32)
  {
    hide Tiles, Coalesced, Indexed, Pieces, PieceHoles, RestOf, BlockOf, Wrap;
    var n, a := Wrap(size + TAGS), h.index[k];
    HoleBounds(h, k);
    WrapOnce(size + TAGS);
    BlockPiece(a, h.sizes[a], n, align);
  }

  /** The size of the block among the pieces of a hole. */
  lemma BlockPiece(a: int, holeSize: int, n: int, align: bool)
    requires 0 <= n <= holeSize < TWO32 && TAGS <= holeSize && 0 <= a < TWO32
    ensures var block := BlockOf(a, align); var d := Pieces(a, holeSize, n, align);
      block in d && d[block] < TWO32 && (0 < n ==> n <= d[block])
  {
    hide RestOf, FrontSize, Wrap;
    var block, size := BlockOf(a, align), BlockSize(holeSize, n);
    WrapSmall(holeSize - n);
    RestRange(a, holeSize, n, align);
    BlockRange(a, align);
    if 0 < n {
      NotItself(block, size);
    }
  }

  lemma RestRange(a: int, holeSize: int, n: int, align: bool)
    ensures 0 <= RestOf(a, holeSize, n, align) < TWO32
  {
  }

  lemma BlockRange(a: int, align: bool)
    requires 0 <= a < TWO32
    ensures 0 <= BlockOf(a, align) < TWO32
  {
  }

  lemma NotItself(x: int, y: int)
    requires 0 <= x < TWO32 && 0 < y < TWO32
    ensures Wrap(x + y) != x
  {
    WrapOnce(x + y);
  }

  // ---------------------------------------------------------------- growth

  /** After growth the end hole covers an unaligned request, so the recursion of alloc stops there. */
  lemma GrowthSuffices(h: Heap, n: int)
    requires Inv(h) && TAGS <= n && ExpandAsserts(h, n) && GrowthInRange(h, n) && EndHoleAbuts(h)
    ensures Search(Grown(h, n), n, false, 0) < |Grown(h, n).index|
  {
    hide Tiles, Coalesced, ExpandAsserts, GrowthInRange, EndHoleAbuts, Grown, EndHole;
    GrownKeepsInv(h, n);
    var g := Grown(h, n);
    assert EndHole(g) in g.index;
    assert !forall i :: 0 <= i < |g.index| ==> !Fits(g.index[i], SizeOf(g.sizes, g.index[i]), n, false);
  }

  /** For unaligned requests alloc calls itself at most once, and its condition is about that one growth only. */
  lemma RecursesOnce(h: Heap, n: int)
    requires Inv(h) && TAGS <= n < TWO32
    ensures AllocReady(h, n, false) <==>
      (Search(h, n, false, 0) == |h.index| && ExpandAsserts(h, n) ==> GrowthInRange(h, n) && EndHoleAbuts(h))
    ensures AllocReady(h, n, false) && Search(h, n, false, 0) == |h.index| && ExpandAsserts(h, n) ==>
      var g := Grown(h, n); var k := Search(g, n, false, 0);
      k < |g.index| && Alloc(h, n, false) == Allocated(Carved(g, k, n, false), g.index[k])
  {
    hide Inv, ExpandAsserts, GrowthInRange, EndHoleAbuts, Grown, Carved;
    if Search(h, n, false, 0) == |h.index| && ExpandAsserts(h, n) && GrowthInRange(h, n) && EndHoleAbuts(h) {
      GrowthSuffices(h, n);
      GrownKeepsInv(h, n);
      PlacedBounds(h);
      PlacedBounds(Grown(h, n));
    }
  }

  /** How often alloc grows the heap. */
  ghost function Growths(h: Heap, n: int, align: bool): nat
    requires AllocReady(h, n, align)
    decreases TWO32 - h.end
  {
    if Search(h, n, align, 0) < |h.index| || !ExpandAsserts(h, n) then 0 else 1 + Growths(Grown(h, n), n, align)
  }

  /** What the aligned fit test adds to a request at a: the way to the next page, for an odd payload address. */
  function WayTested(a: int, align: bool): int {
    if align && a % 2 == 1 then PAGE - (a + HEADER) % PAGE else 0
  }

  /**
   * In a heap that can not reach 2^31 bytes, alloc grows until the end hole has room for the request and the way to the
   * next page, and every growth adds the request.
   */
  lemma {:induction false} GrowthsBound(h: Heap, n: int, align: bool)
    requires Inv(h) && TAGS <= n < TWO32 && h.max - h.start < 0x8000_0000 && AllocReady(h, n, align)
    ensures var missing := WayTested(EndHole(h), align) + n - SizeOf(h.sizes, EndHole(h));
      Growths(h, n, align) > 0 ==> n < 0x8000_0000 && (Growths(h, n, align) - 1) * n < missing
    decreases TWO32 - h.end
  {
    hide Inv, Fits, ExpandAsserts, GrowthInRange, EndHoleAbuts, Grown, EndHole, Carved, WayTested;
    if Search(h, n, align, 0) == |h.index| && ExpandAsserts(h, n) {
      SmallGrowth(h, n);
      GrownEnd(h, n);
      StillMissing(h, n, align);
      GrownKeepsInv(h, n);
      GrowthsBound(Grown(h, n), n, align);
      var more: int := Growths(Grown(h, n), n, align);
      if more > 0 {
        assert (more - 1) * n + n == more * n;
      }
    }
  }

  /** So an unaligned request, and an aligned one at an even address, grows the heap once at most. */
  lemma GrowsOnce(h: Heap, n: int, align: bool)
    requires Inv(h) && TAGS <= n < TWO32 && h.max - h.start < 0x8000_0000 && AllocReady(h, n, align)
    ensures !align || EndHole(h) % 2 == 0 ==> Growths(h, n, align) <= 1
    ensures Growths(h, n, align) <= 2 + PAGE / n
  {
    hide Inv, AllocReady, Growths, EndHole, WayTested, SizeOf;
    GrowthsBound(h, n, align);
    EndSizePositive(h);
    WayPositive(EndHole(h), align);
    AtMost(Growths(h, n, align), n, WayTested(EndHole(h), align), SizeOf(h.sizes, EndHole(h)));
  }

  lemma AtMost(grown: nat, n: int, way: int, size: int)
    requires 0 < n && 0 <= way <= PAGE && 0 <= size && (grown > 0 ==> (grown - 1) * n < way + n - size)
    ensures grown <= 2 + PAGE / n && (way == 0 ==> grown <= 1)
  {
    var q := PAGE / n;
    assert PAGE == n * q + PAGE % n;
    assert n * q + 2 * n == (q + 2) * n;
    if grown > 0 {
      LessByProduct(grown - 1, q + 2, n);
      if way == 0 {
        LessByProduct(grown - 1, 1, n);
      }
    }
  }

  lemma LessByProduct(x: int, y: int, n: int)
    requires n > 0
    ensures x * n < y * n <==> x < y
  {
    if x < y {
      assert y * n == x * n + (y - x) * n;
    } else {
      assert x * n == y * n + (x - y) * n;
    }
  }

  lemma EndSizePositive(h: Heap)
    requires Inv(h)
    ensures 0 <= SizeOf(h.sizes, EndHole(h))
  {
  }

  /** A growth that stays in the address space is for less than 2^31 bytes if the heap is. */
  lemma SmallGrowth(h: Heap, n: int)
    requires Inv(h) && TAGS <= n && h.max - h.start < 0x8000_0000 && ExpandAsserts(h, n) && GrowthInRange(h, n)
    ensures n < 0x8000_0000
  {
    PlacedBounds(h);
    hide Inv, Wrap, ExpandAsserts, GrowthInRange, Rounded, EndHole;
    var added := GrowthAmount(h, n);
  }

  /** The end hole stays where it is and grows by the request or more. */
  lemma GrownEnd(h: Heap, n: int)
    requires Inv(h) && TAGS <= n && ExpandAsserts(h, n) && GrowthInRange(h, n) && EndHoleAbuts(h)
    ensures EndHole(Grown(h, n)) == EndHole(h) && Grown(h, n).max == h.max && Grown(h, n).start == h.start
    ensures SizeOf(h.sizes, EndHole(h)) + n <= SizeOf(Grown(h, n).sizes, EndHole(h))
  {
    hide ExpandAsserts, GrowthInRange, Grown, Coalesced, IndexInsert;
    var added := GrowthAmount(h, n);
    GrownKeepsInv(h, n);
    if h.index == [] {
      AppendHole(h, added);
      assert forall b :: b in h.sizes ==> TAGS <= h.sizes[b] && b + h.sizes[b] <= h.end;
    } else {
      HoleBounds(h, Endmost(h.index));
      WrapSmall(SizeOf(h.sizes, EndHole(h)) + added);
    }
  }

  /** The end hole of a heap in which the search fails lacks room. */
  lemma StillMissing(h: Heap, n: int, align: bool)
    requires Inv(h) && TAGS <= n < 0x8000_0000 && h.max - h.start < 0x8000_0000 && Search(h, n, align, 0) == |h.index|
    ensures SizeOf(h.sizes, EndHole(h)) < WayTested(EndHole(h), align) + n
  {
    hide Tiles, Coalesced, Indexed, Wrap;
    if h.index == [] {
      EndFree(h);
      WayPositive(h.end, align);
    } else {
      var e := Endmost(h.index);
      HoleBounds(h, e);
      assert !Fits(h.index[e], SizeOf(h.sizes, h.index[e]), n, align);
      if align {
        AlignedTest(h.index[e], h.sizes[h.index[e]], n);
      }
    }
  }

  lemma WayPositive(a: int, align: bool)
    ensures 0 <= WayTested(a, align) <= PAGE && (!align || a % 2 == 0 ==> WayTested(a, align) == 0)
  {
  }

  lemma EndFree(h: Heap)
    requires Inv(h)
    ensures h.end !in h.sizes
  {
  }

  /** Growth keeps the invariant exactly when it stays in the address space and the endmost hole abuts the end. */
  lemma GrowthExact(h: Heap, n: int)
    requires Inv(h) && TAGS <= n < TWO32 && ExpandAsserts(h, n)
    ensures Inv(Grown(h, n)) <==> GrowthInRange(h, n) && EndHoleAbuts(h)
  {
    hide Inv, EndHoleAbuts, Grown, GrowthInRange, ExpandAsserts;
    if GrowthInRange(h, n) {
      if EndHoleAbuts(h) {
        GrownKeepsInv(h, n);
      } else {
        GrownInto(h, n);
      }
    } else {
      GrownPast(h, n);
    }
  }

  /** A wrapped new end lies at or below the start of the heap. */
  lemma GrownPast(h: Heap, n: int)
    requires Inv(h) && TAGS <= n < TWO32 && ExpandAsserts(h, n) && !GrowthInRange(h, n)
    ensures !Inv(Grown(h, n))
  {
    hide Tiles, Coalesced, Indexed, IndexInsert, EndHole;
    var length := Length(h) + n;
    LengthSmall(Length(h), n);
    WrapSmall(length);
    WrappedEnd(h.start, length);
    assert Grown(h, n).end <= h.start;
  }

  lemma LengthSmall(length: int, n: int)
    requires 0 <= length < TWO32 && 0 <= n < TWO32 && Wrap(length + n) > length
    ensures length + n < TWO32
  {
  }

  lemma WrappedEnd(start: int, length: int)
    requires 0 <= start < TWO32 && 0 <= length < TWO32
    requires start + length + (if length % 2 == 1 then PAGE - length % PAGE else 0) >= TWO32
    ensures Wrap(start + Rounded(length)) <= start
  {
  }

  /** Lengthening a hole that does not reach the end runs it into the next chunk. */
  lemma GrownInto(h: Heap, n: int)
    requires Inv(h) && TAGS <= n && ExpandAsserts(h, n) && GrowthInRange(h, n) && !EndHoleAbuts(h)
    ensures !Inv(Grown(h, n))
  {
    hide Coalesced, IndexInsert, ExpandAsserts, GrowthInRange, Rounded, Wrap, Grown;
    var added := GrowthAmount(h, n);
    var a := h.index[Endmost(h.index)];
    HoleBounds(h, Endmost(h.index));
    var next := a + h.sizes[a];
    assert next in h.sizes && next != a;
    var g := Lengthened(h, h.end + added, added);
    WrapSmall(h.sizes[a] + added);
    assert g.sizes[a] == h.sizes[a] + added && next in g.sizes;
  }

  // ---------------------------------------------------------------- page-aligned blocks

  /** A page-aligned block starts its payload on a page; front hole, block and rest add up to the hole. */
  lemma AlignedSplit(h: Heap, k: nat, n: int)
    requires Inv(h) && k < |h.index| && TAGS <= n && AlignedFits(h.index[k], SizeOf(h.sizes, h.index[k]), n)
    ensures var a := h.index[k]; var block := BlockOf(a, true); var g := Carved(h, k, n, true);
      var rest := h.sizes[a] - FrontSize(a) - n;
      && a in h.sizes && (block + HEADER) % PAGE == 0
      && a in g.holes && a + g.sizes[a] == block && BlockAt(g, block) && g.sizes[block] == n
      && (rest == 0 || (block + n in g.holes && block + n in g.sizes && g.sizes[block + n] == rest))
      && Inv(g)
  {
    hide Tiles, Coalesced, Indexed, Pieces, PieceHoles, NewHoles, NewIndex, RestOf, FrontSize, BlockSize;
    var a := h.index[k];
    HoleBounds(h, k);
    CarvedHoles(h, k, n, true);
    CarvedAligned(h, k, n);
    PiecesAligned(a, h.sizes[a], n);
    AlignedSizes(a, h.sizes[a], n);
    InsideChunk(h, a, BlockOf(a, true));
    PageStart(a);
  }

  /** alloc returns a page-aligned pointer for an aligned request also if the heap grew, however often. */
  lemma {:induction false} AlignedPointer(h: Heap, n: int)
    requires Inv(h) && TAGS <= n < TWO32 && AllocReady(h, n, true)
    ensures var r := Alloc(h, n, true);
      r.Allocated? ==> (r.block + HEADER) % PAGE == 0
    decreases TWO32 - h.end
  {
    hide Inv, Fits, ExpandAsserts, GrowthInRange, EndHoleAbuts, Grown, Carved, AlignedFits, BlockOf;
    var k := Search(h, n, true, 0);
    if k < |h.index| {
      AlignedSplit(h, k, n);
    } else if ExpandAsserts(h, n) {
      GrownKeepsInv(h, n);
      AlignedPointer(Grown(h, n), n);
    }
  }

  lemma PageStart(a: int)
    ensures (a + (PAGE - a % PAGE - HEADER) + HEADER) % PAGE == 0
  {
  }

  /** Carving a page-aligned block keeps the invariant exactly under AlignedFits. */
  lemma AlignedExact(h: Heap, k: nat, n: int)
    requires Inv(h) && k < |h.index| && TAGS <= n < TWO32
    ensures Inv(Carved(h, k, n, true)) <==> AlignedFits(h.index[k], SizeOf(h.sizes, h.index[k]), n)
  {
    hide Inv, Carved, AlignedFits;
    if AlignedFits(h.index[k], SizeOf(h.sizes, h.index[k]), n) {
      CarvedAligned(h, k, n);
    } else if n > SizeOf(h.sizes, h.index[k]) {
      HugeCarving(h, k, n);
    } else {
      MisalignedCarving(h, k, n);
    }
  }

  /** Too small, empty or negative front holes, and rests that are too small or negative, break the tiling. */
  lemma MisalignedCarving(h: Heap, k: nat, n: int)
    requires Inv(h) && k < |h.index| && TAGS <= n <= SizeOf(h.sizes, h.index[k])
    requires !AlignedFits(h.index[k], SizeOf(h.sizes, h.index[k]), n)
    ensures !Inv(Carved(h, k, n, true))
  {
    hide Coalesced, IndexInsert;
    var a := h.index[k];
    HoleBounds(h, k);
    var size := h.sizes[a];
    var g := Carved(h, k, n, true);
    if a % PAGE > 0xFE0 {
      BadFront(h, k, n);
    } else {
      BadRest(a, size, n);
      var at := Wrap(BlockOf(a, true) + BlockSize(size, n));
      assert at in g.sizes && g.sizes[at] == RestOf(a, size, n, true);
    }
  }

  /** A block larger than its hole runs over the end of the heap, or the chunks before or behind it are impossible. */
  lemma HugeCarving(h: Heap, k: nat, n: int)
    requires Inv(h) && k < |h.index| && SizeOf(h.sizes, h.index[k]) < n < TWO32
    ensures !Inv(Carved(h, k, n, true))
  {
    hide Coalesced, IndexInsert, RestOf, BlockSize, BlockOf, FrontSize, Wrap;
    var a := h.index[k];
    HoleBounds(h, k);
    var size := h.sizes[a];
    var g := Carved(h, k, n, true);
    var block := BlockOf(a, true);
    var at := Wrap(block + BlockSize(size, n));
    HugeAmounts(a, size, n, h.end);
    if block + n > h.end {
      assert block in g.sizes && g.sizes[block] == n;
    } else if TAGS <= FrontSize(a) <= PAGE {
      assert at in g.sizes && g.sizes[at] == RestOf(a, size, n, true);
    } else if FrontSize(a) == 0 {
      InsertKeeps(h.index, a, at, g.sizes);
      assert a in g.index && a !in g.holes;
    } else {
      assert a in g.sizes && g.sizes[a] == FrontSize(a);
    }
  }

  lemma HugeAmounts(a: int, size: int, n: int, end: int)
    requires PAGE <= a && TAGS <= size < n < TWO32 && a + size <= end <= 0xFFFFF000
    ensures BlockSize(size, n) == n && Wrap(BlockOf(a, true) + n) != BlockOf(a, true)
    ensures BlockOf(a, true) == a <==> FrontSize(a) == 0
    ensures BlockOf(a, true) + n <= end ==> Wrap(BlockOf(a, true) + n) == BlockOf(a, true) + n != a
    ensures FrontSize(a) <= PAGE || a + FrontSize(a) > end
    ensures BlockOf(a, true) + n <= end && TAGS <= FrontSize(a) <= PAGE ==>
      RestOf(a, size, n, true) > 0 && BlockOf(a, true) + n + RestOf(a, size, n, true) > end
  {
    hide Wrap;
    var delta := PAGE - a % PAGE - HEADER;
    assert -HEADER < delta < PAGE;
    WrapSmall(a + delta);
    WrapBelow(size - n);
    if delta < 0 {
      WrapBelow(delta);
    } else {
      WrapSmall(delta);
    }
    var block := a + delta;
    if block + n <= end {
      WrapSmall(block + n);
      if delta >= 0 {
        WrapBelow(size - delta - n);
      }
    } else {
      WrapOnce(block + n);
    }
  }

  lemma WrapBelow(x: int)
    requires -TWO32 < x < 0
    ensures Wrap(x) == x + TWO32
  {
  }

  lemma BadRest(a: int, size: int, n: int)
    requires PAGE <= a && TAGS <= n <= size && a + size <= 0xFFFFF000 && a % PAGE <= 0xFE0 && !AlignedFits(a, size, n)
    ensures var rest := RestOf(a, size, n, true);
      rest > 0 && (rest < TAGS || rest > 0xFFFFF000) && 0 <= Wrap(BlockOf(a, true) + BlockSize(size, n))
  {
    var front := FrontSize(a);
    assert front == PAGE - a % PAGE - HEADER;
    WrapSmall(size - n);
    var block := BlockSize(size, n);
    assert TAGS <= front && -PAGE < size - front - block < size;
    if size - front - block >= 0 {
      WrapSmall(size - front - block);
    } else {
      assert Wrap(size - front - block) == size - front - block + TWO32;
    }
  }

  lemma BadFront(h: Heap, k: nat, n: int)
    requires Inv(h) && k < |h.index| && TAGS <= n <= SizeOf(h.sizes, h.index[k]) && h.index[k] % PAGE > 0xFE0
    ensures !Inv(Carved(h, k, n, true))
  {
    hide Coalesced, IndexInsert, RestOf, BlockSize, BlockOf, FrontSize, Wrap;
    var a := h.index[k];
    HoleBounds(h, k);
    var g := Carved(h, k, n, true);
    FrontSizes(a, h.sizes[a], n);
    if FrontSize(a) == 0 {
      InsertKeeps(h.index, a, Wrap(BlockOf(a, true) + BlockSize(h.sizes[a], n)), g.sizes);
      assert a in g.index && a !in g.holes;
    } else {
      assert a in g.sizes && g.sizes[a] == FrontSize(a);
    }
  }

  lemma InsertKeeps(index: seq<int>, a: int, at: int, sizes: Chunks)
    requires a in index
    ensures a in IndexInsert(index, at, sizes)
  {
    InsertedMembers(index, at, SizeLess(sizes));
  }

  lemma FrontSizes(a: int, size: int, n: int)
    requires PAGE <= a && a % PAGE > 0xFE0 && TAGS <= n <= size && a + size <= 0xFFFFF000
    ensures FrontSize(a) < TAGS || FrontSize(a) > 0xFFFFF000
    ensures BlockOf(a, true) == a <==> FrontSize(a) == 0
    ensures Wrap(BlockOf(a, true) + BlockSize(size, n)) != a
  {
    WrapSmall(size - n);
    var delta := PAGE - a % PAGE - HEADER;
    assert -HEADER < delta < TAGS;
    WrapSmall(a + delta);
    WrapSmall(a + delta + BlockSize(size, n));
  }

  lemma WayToPage(a: int)
    requires 0 <= a
    ensures a % PAGE <= 0xFE0 ==> PAGE - (a + HEADER) % PAGE == FrontSize(a)
    ensures (a + HEADER) % 2 == a % 2 && 0 <= (a + HEADER) % PAGE < PAGE
  {
    Parity(a);
    if a % PAGE <= 0xFE0 {
      WrapSmall(PAGE - a % PAGE - HEADER);
      PageOffset(a / PAGE, a % PAGE + HEADER, a + HEADER);
    }
  }

  lemma Parity(a: int)
    ensures (a + HEADER) % 2 == a % 2
  {
  }

  lemma PageOffset(q: int, r: int, x: int)
    requires x == PAGE * q + r && 0 <= r < PAGE
    ensures x % PAGE == r
  {
  }

  /**
   * What find_smallest_hole tests for a page-aligned request: with an odd payload address that the way to the next page
   * and the request fit, with an even one that the request alone does. From 2^31 on, sizes are read as negative ones.
   */
  lemma AlignedTest(a: int, holeSize: int, n: int)
    requires 0 <= a && 0 <= holeSize < TWO32 && 0 <= n < TWO32
    ensures var way := if a % 2 == 1 then PAGE - (a + HEADER) % PAGE else 0;
      && (holeSize < 0x8000_0000 && n < 0x8000_0000 ==> (Fits(a, holeSize, n, true) <==> way + n <= holeSize))
      && (holeSize < 0x8000_0000 && n >= 0x8000_0000 ==> (Fits(a, holeSize, n, true) <==> way + n <= holeSize + TWO32))
      && (holeSize >= 0x8000_0000 && n < 0x8000_0000 ==> !Fits(a, holeSize, n, true))
      && (holeSize >= 0x8000_0000 && n >= 0x8000_0000 ==> (Fits(a, holeSize, n, true) <==> way + n <= holeSize))
    ensures a % PAGE <= 0xFE0 ==> PAGE - (a + HEADER) % PAGE == FrontSize(a)
  {
    hide Wrap, FrontSize;
    WrapSmall(holeSize);
    WrapSmall(n);
    WayToPage(a);
  }

  // ---------------------------------------------------------------- contraction

  /**
   * A contraction under its condition leaves exactly HEAP_MIN_SIZE bytes, one hole at their end, and every earlier
   * chunk.
   */
  lemma Shrinks(h: Heap, a: int)
    requires Inv(h) && BlockAt(h, a) && FreeReady(h, a) && MergedHi(h, a) == h.end
    ensures var f := Freed(h, a); var lo := MergedLo(h, a);
      && Inv(f) && Length(f) == HEAP_MIN_SIZE
      && lo in f.holes && lo + f.sizes[lo] == f.end
      && (forall b :: b in h.sizes && b < lo ==>
            b in f.sizes && f.sizes[b] == h.sizes[b] && (b in f.holes <==> b in h.holes))
      && (forall b :: b in f.sizes ==> b <= lo)
  {
    hide Tiles, Coalesced, Indexed, MergedLo, MergedHi, MergesLeft, MergesRight, FreedSize, FreedLength, IndexInsert;
    hide Without, Wrap;
    FreedKeepsInv(h, a);
    FreedAmounts(h, a);
    MergedBounds(h, a);
    forall b | b in h.sizes ensures b < h.end {
      AtLeastTags(h, b);
    }
  }

  /** A freed hole at the end keeps the invariant exactly when it starts low enough for the minimal heap and that
      heap ends below the limit. A shorter heap is then lengthened. */
  lemma ShrinkExact(h: Heap, a: int)
    requires Inv(h) && BlockAt(h, a) && MergedHi(h, a) == h.end
    ensures Inv(Freed(h, a)) <==> MergedLo(h, a) - h.start <= HEAP_MIN_SIZE - TAGS && h.start + HEAP_MIN_SIZE <= h.max
    ensures Inv(Freed(h, a)) ==> Length(Freed(h, a)) == HEAP_MIN_SIZE
  {
    hide Inv, Freed, MergedLo, MergedHi, Wrap;
    if MergedLo(h, a) - h.start > HEAP_MIN_SIZE - TAGS {
      BadShrink(h, a);
    } else if h.start + HEAP_MIN_SIZE > h.max {
      BadStretch(h, a);
    } else {
      FreedKeepsInv(h, a);
      FreedAmounts(h, a);
      FreedEnd(h, a);
    }
  }

  /** What the conditions of alloc and free ask for, in numbers. */
  lemma ReadyInNumbers(h: Heap, a: int, size: int, n: int)
    requires Inv(h) && PAGE <= a
    ensures FreeReady(h, a) <==>
      (MergedHi(h, a) == h.end ==> MergedLo(h, a) - h.start <= 0x7_0000 - 20 && h.end - h.start >= 0x7_0000)
    ensures var front := 0x1000 - a % 0x1000 - 12;
      AlignedFits(a, size, n) <==> a % 0x1000 <= 0xFE0 && (front + n == size || front + n + 20 <= size)
  {
    hide MergedHi, MergedLo;
    PlacedBounds(h);
    if a % PAGE <= 0xFE0 {
      WrapSmall(PAGE - a % PAGE - HEADER);
    }
  }

  lemma FreedEnd(h: Heap, a: int)
    requires BlockAt(h, a)
    ensures Freed(h, a).end == Wrap(h.start + FreedLength(h, a)) && Freed(h, a).start == h.start
    ensures Freed(h, a).max == h.max
  {
    hide MergesLeft, MergesRight, MergedLo, MergedHi, FreedSize, FreedLength, Splice, SpliceHoles, Wrap, IndexInsert;
    hide Without;
  }

  lemma BadShrink(h: Heap, a: int)
    requires Inv(h) && BlockAt(h, a) && MergedHi(h, a) == h.end && MergedLo(h, a) - h.start > HEAP_MIN_SIZE - TAGS
    ensures !Inv(Freed(h, a))
  {
    hide Inv, BlockAt, MergedLo, MergedHi, FreedSize, FreedLength, Freed, Wrap;
    MergedBounds(h, a);
    BlockInside(h, a);
    PlacedBounds(h);
    BadAmounts(h, a);
    FreedEnd(h, a);
    FreedHole(h, a);
    if Inv(Freed(h, a)) {
      AtLeastTags(Freed(h, a), MergedLo(h, a));
    }
  }

  lemma BlockInside(h: Heap, a: int)
    requires Inv(h) && BlockAt(h, a)
    ensures a < h.end
  {
    hide Inv;
    AtLeastTags(h, a);
  }

  lemma FreedHole(h: Heap, a: int)
    requires BlockAt(h, a)
    ensures MergedLo(h, a) in Freed(h, a).sizes && Freed(h, a).sizes[MergedLo(h, a)] == FreedSize(h, a)
  {
    hide MergesLeft, MergesRight, MergedLo, MergedHi, FreedSize, FreedLength, Wrap, IndexInsert, Without;
  }

  lemma BadAmounts(h: Heap, a: int)
    requires MergedHi(h, a) == h.end && 0 <= h.start && h.end < TWO32
    requires HEAP_MIN_SIZE - TAGS < MergedLo(h, a) - h.start < Length(h)
    ensures FreedSize(h, a) < TAGS || MergedLo(h, a) + FreedSize(h, a) > Wrap(h.start + FreedLength(h, a))
  {
    hide MergedLo, MergedHi;
    var off := MergedLo(h, a) - h.start;
    var length := FreedLength(h, a);
    assert length == HEAP_MIN_SIZE || length == off;
    if length < off {
      assert Wrap(length - off) == length - off + TWO32;
    } else {
      WrapSmall(length - off);
    }
  }

  /** A minimal heap that does not fit below the limit. */
  lemma BadStretch(h: Heap, a: int)
    requires Inv(h) && BlockAt(h, a) && MergedHi(h, a) == h.end && MergedLo(h, a) - h.start <= HEAP_MIN_SIZE - TAGS
    requires h.start + HEAP_MIN_SIZE > h.max
    ensures !Inv(Freed(h, a))
  {
    hide Inv, MergedLo, MergedHi, Freed, Wrap;
    MergedBounds(h, a);
    PlacedBounds(h);
    ContractedLow(MergedLo(h, a) - h.start);
    FreedEnd(h, a);
    WrapOnce(h.start + HEAP_MIN_SIZE);
    if Inv(Freed(h, a)) {
      PlacedBounds(Freed(h, a));
      assert false;
    }
  }

  lemma WrapOnce(x: int)
    requires 0 <= x < 2 * TWO32
    ensures Wrap(x) == if x < TWO32 then x else x - TWO32
  {
  }
}
