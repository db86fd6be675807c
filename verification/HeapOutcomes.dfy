/** When alloc returns, what it returns and how far the heap grows, in plain arithmetic. */
module HeapOutcomes {
  import opened Machine
  import opened OrderedArrays
  import opened Tiling
  import opened HeapSpec
  import opened HeapInvariant
  import opened HeapTheorems
  import opened HeapOrder

  // ---------------------------------------------------------------- growth

  /**
   * A heap can grow for n bytes exactly if its new length is a 32-bit number and its new end is not above the limit.
   */
  lemma ExpandExact(h: Heap, n: int)
    requires Inv(h) && TAGS <= n < TWO32 && (ExpandAsserts(h, n) ==> GrowthInRange(h, n))
    ensures var length := h.end - h.start + n;
      var end := h.start + length + (if length % 2 == 1 then 0x1000 - length % 0x1000 else 0);
      && (ExpandAsserts(h, n) <==> length < 0x1_0000_0000 && end <= h.max)
      && (ExpandAsserts(h, n) ==> Grown(h, n).end == end)
  {
    PlacedBounds(h);
    hide Inv, Wrap, Grown, Rounded, GrowthInRange;
    var length := h.end - h.start + n;
    if length < TWO32 {
      WrapSmall(length);
      RoundedEnd(h, n);
    } else {
      WrapOnce(length);
    }
  }

  lemma RoundedEnd(h: Heap, n: int)
    requires PAGE <= h.start < h.end <= h.max <= 0xFFFFF000 && TAGS <= n && h.end - h.start + n < TWO32
    requires ExpandAsserts(h, n) ==> GrowthInRange(h, n)
    ensures var length := h.end - h.start + n; var end := h.start + length
      + (if length % 2 == 1 then PAGE - length % PAGE else 0);
      && (ExpandAsserts(h, n) <==> end <= h.max)
      && (ExpandAsserts(h, n) ==> Grown(h, n).end == end)
  {
    hide Wrap, Rounded;
    var length := h.end - h.start + n;
    var pad := if length % 2 == 1 then PAGE - length % PAGE else 0;
    WrapSmall(length);
    if h.start + length + pad < TWO32 {
      RoundedPlain(length);
      WrapSmall(h.start + length + pad);
    } else {
      WrappedEnd(h.start, length);
    }
    GrownPlace(h, n);
  }

  lemma GrownPlace(h: Heap, n: int)
    ensures Grown(h, n).end == Wrap(h.start + Rounded(Wrap(h.end - h.start + n)))
  {
    hide Wrap, Rounded, EndHole, IndexInsert;
  }

  // ---------------------------------------------------------------- unaligned requests

  /** alloc stops at an assertion exactly if no hole is large enough and the heap can not grow by the request. */
  lemma AllocPanicsExact(h: Heap, n: int)
    requires Inv(h) && TAGS <= n < TWO32 && AllocReady(h, n, false)
    ensures var length := h.end - h.start + n;
      Alloc(h, n, false).Panic? <==>
        && (forall a :: a in h.holes ==> SizeOf(h.sizes, a) < n)
        && (length >= 0x1_0000_0000
            || h.start + length + (if length % 2 == 1 then 0x1000 - length % 0x1000 else 0) > h.max)
  {
    hide Inv, Fits, ExpandAsserts, GrowthInRange, EndHoleAbuts, Grown, Carved, SizeOf;
    SearchFails(h, n);
    RecursesOnce(h, n);
    if Search(h, n, false, 0) == |h.index| {
      ExpandExact(h, n);
    }
  }

  /** Otherwise the heap grows exactly if no hole is large enough, by the request and the padding of odd lengths. */
  lemma AllocEnd(h: Heap, n: int)
    requires Inv(h) && TAGS <= n < TWO32 && AllocReady(h, n, false) && Alloc(h, n, false).Allocated?
    ensures var length := h.end - h.start + n; var g := Alloc(h, n, false).heap;
      && g.start == h.start && g.max == h.max
      && g.end == if exists a :: a in h.holes && SizeOf(h.sizes, a) >= n then h.end
                  else h.start + length + (if length % 2 == 1 then 0x1000 - length % 0x1000 else 0)
  {
    hide Inv, Fits, ExpandAsserts, GrowthInRange, EndHoleAbuts, Grown, Carved, SizeOf;
    SearchFails(h, n);
    RecursesOnce(h, n);
    var k := Search(h, n, false, 0);
    if k == |h.index| {
      ExpandExact(h, n);
      GrownEnd(h, n);
      CarvedBounds(Grown(h, n), Search(Grown(h, n), n, false, 0), n);
    } else {
      CarvedBounds(h, k, n);
    }
  }

  lemma CarvedBounds(h: Heap, k: nat, n: int)
    requires k < |h.index|
    ensures var g := Carved(h, k, n, false); g.start == h.start && g.end == h.end && g.max == h.max
  {
    hide Pieces, NewHoles, NewIndex, BlockOf, RestOf, BlockSize;
  }

  /**
   * The block is at the first hole of the index that is large enough, or else at the hole that reaches the end of the
   * heap, or at the end if there is no hole.
   */
  lemma AllocTakes(h: Heap, n: int)
    requires Inv(h) && TAGS <= n < TWO32 && AllocReady(h, n, false) && Alloc(h, n, false).Allocated?
    ensures var a := Alloc(h, n, false).block;
      if exists b :: b in h.holes && SizeOf(h.sizes, b) >= n then
        exists k :: 0 <= k < |h.index| && h.index[k] == a && SizeOf(h.sizes, a) >= n
                    && forall i :: 0 <= i < k ==> SizeOf(h.sizes, h.index[i]) < n
      else
        a + SizeOf(h.sizes, a) == h.end && (a in h.holes || h.holes == {})
  {
    hide Inv, Fits, ExpandAsserts, GrowthInRange, EndHoleAbuts, Grown, Carved, SizeOf, EndHole, Taken;
    SearchFails(h, n);
    RecursesOnce(h, n);
    AllocIsTaken(h, n);
    NoIndexNoHoles(h);
    if Search(h, n, false, 0) == |h.index| {
      EndHolePlace(h);
    } else {
      SearchPasses(h, n);
    }
  }

  /** The block is at the hole that alloc takes. */
  lemma AllocIsTaken(h: Heap, n: int)
    requires Inv(h) && TAGS <= n < TWO32 && AllocReady(h, n, false) && Alloc(h, n, false).Allocated?
    ensures var k := Search(h, n, false, 0);
      Alloc(h, n, false).block == if k < |h.index| then h.index[k] else EndHole(h)
  {
    hide Inv, Fits, ExpandAsserts, GrowthInRange, EndHoleAbuts, Grown, Carved, EndHole;
    RecursesOnce(h, n);
    if Search(h, n, false, 0) == |h.index| {
      TakenAfterGrowth(h, n, false);
    }
  }

  /** What the block does not need of the bytes there, growth included, stays a hole behind it if that is 20 or more. */
  lemma AllocSplits(h: Heap, n: int)
    requires Inv(h) && TAGS <= n < TWO32 && AllocReady(h, n, false) && Alloc(h, n, false).Allocated?
    ensures var a := Alloc(h, n, false).block; var g := Alloc(h, n, false).heap;
      var room := SizeOf(h.sizes, a) + (g.end - h.end);
      && a in g.sizes
      && if room - n < 20 then g.sizes[a] == room
         else g.sizes[a] == n && a + n in g.holes && a + n in g.sizes && g.sizes[a + n] == room - n
  {
    hide Inv, Fits, ExpandAsserts, GrowthInRange, EndHoleAbuts, Grown, Carved, SizeOf, EndHole;
    RecursesOnce(h, n);
    AllocIsTaken(h, n);
    var k := Search(h, n, false, 0);
    if k == |h.index| {
      var g := Grown(h, n);
      var l := Search(g, n, false, 0);
      GrownKeepsInv(h, n);
      GrownIndex(h, n);
      SearchPasses(g, n);
      CarvedBounds(g, l, n);
      CarvedPieces(g, l, n);
    } else {
      SearchPasses(h, n);
      CarvedBounds(h, k, n);
      CarvedPieces(h, k, n);
    }
  }

  // ---------------------------------------------------------------- page-aligned requests

  /** The length of a heap after k growths for n bytes: odd lengths are padded to a page. */
  function LengthAfter(length: int, n: int, k: nat): int {
    if k == 0 then length
    else
      var longer := LengthAfter(length, n, k - 1) + n;
      longer + (if longer % 2 == 1 then 0x1000 - longer % 0x1000 else 0)
  }

  /** The bytes that the aligned test asks of a hole at a, where sizes from 2^31 on count as negative. */
  function Asked(a: int, n: int): int {
    (if a % 2 == 1 then 0x1000 - (a + 12) % 0x1000 else 0) + (if n < 0x8000_0000 then n else n - 0x1_0000_0000)
  }

  /**
   * In a heap that can not reach 2^31 bytes, alloc for an aligned request stops at an assertion exactly if no hole has
   * the bytes that the test asks for, and some growth goes over the limit before the end hole has them.
   */
  lemma {:induction false} AlignedPanicsExact(h: Heap, n: int)
    requires Inv(h) && TAGS <= n < TWO32 && h.max - h.start < 0x8000_0000 && AllocReady(h, n, true)
    ensures var e := EndHole(h); var length := h.end - h.start;
      Alloc(h, n, true).Panic? <==>
        && (forall a :: a in h.holes ==> SizeOf(h.sizes, a) < Asked(a, n))
        && (exists k: nat :: TooLong(h, n, k))
    decreases TWO32 - h.end
  {
    hide Inv, Fits, ExpandAsserts, GrowthInRange, EndHoleAbuts, Grown, Carved, SizeOf, EndHole, AlignedFits, Asked;
    hide TooLong;
    AlignedSearch(h, n);
    if Search(h, n, true, 0) == |h.index| {
      if ExpandAsserts(h, n) {
        GrownKeepsInv(h, n);
        SmallGrowth(h, n);
        GrownEnd(h, n);
        AlignedPanicsExact(Grown(h, n), n);
        PanicsLater(h, n);
      } else {
        FirstTooLong(h, n);
      }
    }
  }

  /** After k growths the end hole is still too small, and one more goes over the limit. */
  ghost predicate TooLong(h: Heap, n: int, k: nat) {
    var e, length := EndHole(h), h.end - h.start;
    && h.start + LengthAfter(length, n, k + 1) > h.max
    && SizeOf(h.sizes, e)
      + (LengthAfter(length, n, k) - length) < (if e % 2 == 1 then 0x1000 - (e + 12) % 0x1000 else 0) + n
  }

  lemma AlignedSearch(h: Heap, n: int)
    requires Inv(h) && TAGS <= n < TWO32 && h.max - h.start < 0x8000_0000
    ensures Search(h, n, true, 0) == |h.index| <==> forall a :: a in h.holes ==> SizeOf(h.sizes, a) < Asked(a, n)
  {
    hide Tiles, Coalesced, Fits, SizeOf;
    NoIndexNoHoles(h);
    forall i | 0 <= i < |h.index|
      ensures Fits(h.index[i], SizeOf(h.sizes, h.index[i]), n, true)
        <==> SizeOf(h.sizes, h.index[i]) >= Asked(h.index[i], n)
    {
      HoleSmall(h, i);
      AlignedTest(h.index[i], SizeOf(h.sizes, h.index[i]), n);
    }
    var k := Search(h, n, true, 0);
    if k < |h.index| {
      assert h.index[k] in h.index;
    } else {
      forall a | a in h.holes ensures SizeOf(h.sizes, a) < Asked(a, n) {
        assert a in h.index;
        var i :| 0 <= i < |h.index| && h.index[i] == a;
        assert !Fits(h.index[i], SizeOf(h.sizes, h.index[i]), n, true);
      }
    }
  }

  lemma HoleSmall(h: Heap, k: nat)
    requires Inv(h) && k < |h.index| && h.max - h.start < 0x8000_0000
    ensures 0 <= h.index[k] && 0 <= SizeOf(h.sizes, h.index[k]) < 0x8000_0000
  {
    HoleBounds(h, k);
  }

  lemma FirstTooLong(h: Heap, n: int)
    requires Inv(h) && TAGS <= n < TWO32 && h.max - h.start < 0x8000_0000 && Search(h, n, true, 0) == |h.index|
    requires !ExpandAsserts(h, n)
    ensures TooLong(h, n, 0)
  {
    hide Fits, EndHole, ExpandAsserts, Grown, GrowthInRange;
    ExpandExact(h, n);
    PlacedBounds(h);
    EndSmall(h);
    var length := h.end - h.start;
    assert LengthAfter(length, n, 0) == length;
    if n < 0x8000_0000 {
      StillMissing(h, n, true);
    } else {
      WayPositive(EndHole(h), true);
    }
  }

  lemma EndSmall(h: Heap)
    requires Inv(h) && h.max - h.start < 0x8000_0000
    ensures SizeOf(h.sizes, EndHole(h)) < 0x8000_0000
  {
    if h.index != [] {
      HoleSmall(h, Endmost(h.index));
    } else {
      EndFree(h);
    }
  }

  lemma {:induction false} LengthLater(length: int, n: int, k: nat)
    ensures LengthAfter(LengthAfter(length, n, 1), n, k) == LengthAfter(length, n, k + 1)
  {
    if k > 0 {
      LengthLater(length, n, k - 1);
    }
  }

  lemma {:induction false} LengthGrows(length: int, n: int, k: nat)
    requires n >= 0
    ensures length <= LengthAfter(length, n, k)
  {
    if k > 0 {
      LengthGrows(length, n, k - 1);
    }
  }

  /** The condition after a growth is the one before it, one growth later. */
  lemma TooLongLater(h: Heap, n: int, k: nat)
    requires Inv(h) && TAGS <= n && ExpandAsserts(h, n) && GrowthInRange(h, n) && EndHoleAbuts(h) && n < TWO32
    ensures TooLong(Grown(h, n), n, k) <==> TooLong(h, n, k + 1)
    ensures !TooLong(h, n, 0)
  {
    hide Inv, ExpandAsserts, GrowthInRange, EndHoleAbuts, Grown, EndHole, SizeOf;
    ExpandExact(h, n);
    GrownIndex(h, n);
    GrownEnd(h, n);
    var length := h.end - h.start;
    assert LengthAfter(length, n, 0) == length;
    assert LengthAfter(length, n, 1) == Grown(h, n).end - h.start;
    LengthLater(length, n, k);
    LengthLater(length, n, k + 1);
  }

  lemma PanicsLater(h: Heap, n: int)
    requires Inv(h) && TAGS <= n < 0x8000_0000 && h.max - h.start < 0x8000_0000 && Search(h, n, true, 0) == |h.index|
    requires ExpandAsserts(h, n) && GrowthInRange(h, n) && EndHoleAbuts(h) && Inv(Grown(h, n))
    ensures (exists k: nat :: TooLong(h, n, k)) <==>
      (forall a :: a in Grown(h, n).holes ==> SizeOf(Grown(h, n).sizes, a) < Asked(a, n))
      && (exists k: nat :: TooLong(Grown(h, n), n, k))
  {
    hide Inv, Fits, ExpandAsserts, GrowthInRange, EndHoleAbuts, Grown, SizeOf, EndHole, Asked, TooLong;
    var g := Grown(h, n);
    AlignedSearch(h, n);
    GrownHoles(h, n);
    if k: nat :| TooLong(h, n, k) {
      TooLongLater(h, n, 0);
      assert k > 0;
      TooLongLater(h, n, k - 1);
      TooLongSmall(g, n, k - 1);
    }
    if k: nat :| TooLong(g, n, k) {
      TooLongLater(h, n, k);
    }
  }

  /** Only the end hole is changed by growth. */
  lemma GrownHoles(h: Heap, n: int)
    requires Inv(h) && TAGS <= n && ExpandAsserts(h, n) && GrowthInRange(h, n) && EndHoleAbuts(h)
    ensures var g := Grown(h, n);
      forall a :: a in g.holes && a != EndHole(g) ==> a in h.holes && SizeOf(g.sizes, a) == SizeOf(h.sizes, a)
  {
    hide ExpandAsserts, GrowthInRange, EndHoleAbuts, Grown, EndHole, Tiles, Coalesced, Indexed;
    GrownKeepsInv(h, n);
  }

  lemma TooLongSmall(h: Heap, n: int, k: nat)
    requires 0 <= n < 0x8000_0000 && TooLong(h, n, k)
    ensures SizeOf(h.sizes, EndHole(h)) < Asked(EndHole(h), n)
  {
    hide SizeOf, EndHole;
    LengthGrows(h.end - h.start, n, k);
  }

  lemma NoIndexNoHoles(h: Heap)
    requires Inv(h)
    ensures h.index == [] <==> h.holes == {}
    ensures forall a :: a in h.index <==> a in h.holes
  {
    hide Tiles, Coalesced;
    assert forall a :: a in h.holes <==> a in h.index;
    if h.index != [] {
      assert h.index[0] in h.index;
    }
  }

  lemma SearchPasses(h: Heap, n: int)
    ensures var k := Search(h, n, false, 0);
      && (k < |h.index| ==> SizeOf(h.sizes, h.index[k]) >= n)
      && forall i :: 0 <= i < k ==> SizeOf(h.sizes, h.index[i]) < n
  {
    hide SizeOf;
    var k := Search(h, n, false, 0);
    forall i | 0 <= i < k ensures SizeOf(h.sizes, h.index[i]) < n {
      assert !Fits(h.index[i], SizeOf(h.sizes, h.index[i]), n, false);
    }
  }

  lemma CarvedPieces(h: Heap, k: nat, n: int)
    requires Inv(h) && k < |h.index| && TAGS <= n <= SizeOf(h.sizes, h.index[k])
    ensures var a := h.index[k]; var g := Carved(h, k, n, false); var room := SizeOf(h.sizes, a);
      && a in g.sizes
      && if room - n < 20 then g.sizes[a] == room
         else g.sizes[a] == n && a + n in g.holes && a + n in g.sizes && g.sizes[a + n] == room - n
  {
    hide Tiles, Coalesced, Pieces, PieceHoles, RestOf, BlockSize, NewHoles, NewIndex;
    var a := h.index[k];
    HoleBounds(h, k);
    CarvedHoles(h, k, n, false);
    if h.sizes[a] < n + TAGS {
      PiecesWhole(a, h.sizes[a], n);
    } else {
      PiecesSplit(a, h.sizes[a], n);
    }
  }
}
