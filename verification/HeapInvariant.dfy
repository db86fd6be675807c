/** Every operation keeps the heap invariant. */
module HeapInvariant {
  import opened Machine
  import opened OrderedArrays
  import opened Tiling
  import opened HeapSpec

  lemma PlacedBounds(h: Heap)
    requires Inv(h)
    ensures PAGE <= h.start < h.end <= h.max <= 0xFFFFF000
  {
  }

  /** Coalescing is complete: a heap without blocks is one hole. */
  lemma WithoutBlocks(h: Heap)
    requires Inv(h) && forall a :: a in h.sizes ==> a in h.holes
    ensures h.sizes == map[h.start := h.end - h.start] && h.holes == {h.start} && h.index == [h.start]
  {
    forall a | a in h.sizes ensures a == h.start {
      if a != h.start {
        var b := Previous(h.sizes, h.start, h.end, a);
        assert false;
      }
    }
    Follows(h.sizes, h.start, h.end, h.start);
    assert h.start + h.sizes[h.start] == h.end;
    OneEntry(h.holes, h.index, h.start);
  }

  lemma OneEntry(holes: set<int>, index: seq<int>, a: int)
    requires Indexed(holes, index) && holes == {a}
    ensures index == [a]
  {
    assert a in index;
    assert forall i :: 0 <= i < |index| ==> index[i] in index;
    var last := |index| - 1;
    assert index[0] == a && index[last] == a;
  }

  /** Replacing the hole at a by chunks inside its range is a splice. */
  lemma HoleSplice(h: Heap, a: int, d: Chunks, dHoles: set<int>)
    requires Inv(h) && a in h.holes && a in d
    requires forall x :: x in d ==> a <= x < a + SizeOf(h.sizes, a)
    ensures h.sizes + d == Splice(h.sizes, a, a + SizeOf(h.sizes, a), d)
    ensures h.holes - {a} + dHoles == SpliceHoles(h.holes, a, a + SizeOf(h.sizes, a), dHoles)
  {
    assert forall x :: x in h.sizes && a <= x < a + h.sizes[a] ==> x == a;
  }

  lemma PartsInside(d: Chunks, lo: int, hi: int)
    requires Tiles(d, lo, hi)
    ensures lo in d && forall x :: x in d ==> lo <= x < hi
  {
  }

  lemma HolePlace(h: Heap, a: int)
    requires Inv(h) && a in h.holes
    ensures a in h.sizes && TAGS <= h.sizes[a] && Spliceable(h.sizes, h.end, a, a + h.sizes[a], a + h.sizes[a], h.end)
    ensures Tiles(h.sizes, h.start, h.end) && Coalesced(h.sizes, h.holes) && h.holes <= h.sizes.Keys
    ensures a + h.sizes[a] !in h.holes && forall b :: b in h.holes ==> b + h.sizes[b] != a
  {
  }

  /** A hole may be replaced by a coalesced tiling of its range. */
  lemma ReplaceHole(h: Heap, a: int, d: Chunks, dHoles: set<int>)
    requires Inv(h) && a in h.holes && Tiles(d, a, a + h.sizes[a]) && Coalesced(d, dHoles) && dHoles <= d.Keys
    ensures Tiles(h.sizes + d, h.start, h.end) && Coalesced(h.sizes + d, h.holes - {a} + dHoles)
  {
    hide Inv, Tiles, Coalesced, Splice, SpliceHoles;
    HolePlace(h, a);
    var hi := a + h.sizes[a];
    PartsInside(d, a, hi);
    HoleSplice(h, a, d, dHoles);
    SpliceTiles(h.sizes, h.start, h.end, a, hi, d, hi, h.end);
    SpliceCoalesced(h.sizes, h.holes, h.start, h.end, a, hi, d, dHoles, hi, h.end);
  }

  // ---------------------------------------------------------------- alloc from a hole

  lemma PiecesWhole(a: int, holeSize: int, n: int)
    requires TAGS <= n <= holeSize < n + TAGS && a + holeSize < TWO32
    ensures Pieces(a, holeSize, n, false) == map[a := holeSize] && PieceHoles(a, holeSize, n, false) == {}
    ensures RestOf(a, holeSize, n, false) == 0 && BlockSize(holeSize, n) == holeSize
    ensures Pieces(a, holeSize, n, false).Keys == {a}
  {
    assert Wrap(holeSize - n) == holeSize - n;
    assert BlockSize(holeSize, n) == holeSize;
    assert Wrap(0) == 0;
  }

  lemma PiecesSplit(a: int, holeSize: int, n: int)
    requires 0 <= a && TAGS <= n && n + TAGS <= holeSize && a + holeSize < TWO32
    ensures Pieces(a, holeSize, n, false) == map[a := n][a + n := holeSize - n]
    ensures PieceHoles(a, holeSize, n, false) == {a + n}
    ensures RestOf(a, holeSize, n, false) == holeSize - n && BlockSize(holeSize, n) == n
    ensures Pieces(a, holeSize, n, false).Keys == {a, a + n}
  {
    assert Wrap(holeSize - n) == holeSize - n;
    assert BlockSize(holeSize, n) == n;
    assert Wrap(a + n) == a + n;
  }

  lemma PiecesPlainTile(a: int, holeSize: int, n: int)
    requires TAGS <= n <= holeSize && 0 <= a && a + holeSize < TWO32
    ensures Tiles(Pieces(a, holeSize, n, false), a, a + holeSize)
    ensures Coalesced(Pieces(a, holeSize, n, false), PieceHoles(a, holeSize, n, false))
  {
    if holeSize < n + TAGS {
      PiecesWhole(a, holeSize, n);
      OneChunk(a, holeSize);
    } else {
      PiecesSplit(a, holeSize, n);
      TwoChunks(a, n, holeSize - n);
    }
  }

  /** The arithmetic of an aligned carving. */
  lemma AlignedSizes(a: int, holeSize: int, n: int)
    requires PAGE <= a && TAGS <= n && a + holeSize < TWO32 && AlignedFits(a, holeSize, n)
    ensures TAGS <= FrontSize(a) == PAGE - a % PAGE - HEADER
    ensures BlockOf(a, true) == a + FrontSize(a) && BlockSize(holeSize, n) == n
    ensures RestOf(a, holeSize, n, true) == holeSize - FrontSize(a) - n
    ensures Wrap(BlockOf(a, true) + n) == a + FrontSize(a) + n
  {
    var front := FrontSize(a);
    assert front == PAGE - a % PAGE - HEADER && TAGS <= front;
    assert Wrap(holeSize - n) == holeSize - n;
    assert BlockOf(a, true) == a + front;
    assert Wrap(holeSize - front - n) == holeSize - front - n;
    assert Wrap(a + front + n) == a + front + n;
  }

  lemma PiecesAligned(a: int, holeSize: int, n: int)
    requires PAGE <= a && TAGS <= n && a + holeSize < TWO32 && AlignedFits(a, holeSize, n)
    ensures var made := map[a := FrontSize(a)][a + FrontSize(a) := n];
      && (holeSize == FrontSize(a) + n ==>
            Pieces(a, holeSize, n, true) == made && PieceHoles(a, holeSize, n, true) == {a})
      && (holeSize > FrontSize(a) + n ==>
            && Pieces(a, holeSize, n, true) == made[a + FrontSize(a) + n := holeSize - FrontSize(a) - n]
            && PieceHoles(a, holeSize, n, true) == {a, a + FrontSize(a) + n})
    ensures Pieces(a, holeSize, n, true).Keys == PieceHoles(a, holeSize, n, true) + {a + FrontSize(a)}
  {
    hide FrontSize, BlockOf, BlockSize, RestOf;
    AlignedSizes(a, holeSize, n);
  }

  lemma PiecesAlignedTile(a: int, holeSize: int, n: int)
    requires PAGE <= a && TAGS <= n && a + holeSize < TWO32 && AlignedFits(a, holeSize, n)
    ensures Tiles(Pieces(a, holeSize, n, true), a, a + holeSize)
    ensures Coalesced(Pieces(a, holeSize, n, true), PieceHoles(a, holeSize, n, true))
  {
    hide Pieces, PieceHoles, Tiles, Coalesced, FrontSize, BlockOf, BlockSize, RestOf;
    PiecesAligned(a, holeSize, n);
    AlignedSizes(a, holeSize, n);
    if holeSize == FrontSize(a) + n {
      TwoChunks(a, FrontSize(a), n);
    } else {
      ThreeChunks(a, FrontSize(a), n, holeSize - FrontSize(a) - n);
    }
  }

  // ---------------------------------------------------------------- the index

  /** Removing one member and inserting one keeps the index in step with the holes. */
  lemma IndexReplaced(holes: set<int>, index: seq<int>, k: nat)
    requires Indexed(holes, index) && k < |index|
    ensures Indexed(holes - {index[k]}, RemoveAt(index, k))
  {
    RemoveAtMembers(index, k);
  }

  lemma IndexExtended(holes: set<int>, index: seq<int>, a: int, sizes: Chunks)
    requires Indexed(holes, index) && a !in holes
    ensures Indexed(holes + {a}, IndexInsert(index, a, sizes))
  {
    InsertedMembers(index, a, SizeLess(sizes));
    InsertedDistinct(index, a, SizeLess(sizes));
  }

  lemma IndexWithout(holes: set<int>, index: seq<int>, a: int)
    requires Indexed(holes, index) && a in holes
    ensures Indexed(holes - {a}, Without(index, a))
  {
    var k := PositionOf(index, a, 0);
    RemoveAtMembers(index, k);
  }

  /** The bounds of a hole of the index. */
  lemma HoleBounds(h: Heap, k: nat)
    requires Inv(h) && k < |h.index|
    ensures var a := h.index[k];
      a in h.holes && a in h.sizes && h.start <= a && TAGS <= h.sizes[a] && a + h.sizes[a] <= h.end
  {
    assert h.index[k] in h.index;
  }

  /** Inside a chunk no other chunk starts. */
  lemma InsideChunk(h: Heap, a: int, x: int)
    requires Inv(h) && a in h.sizes && a < x < a + h.sizes[a]
    ensures x !in h.sizes && x !in h.holes
  {
  }

  lemma NewIndexed(holes: set<int>, index: seq<int>, k: nat, keep: bool, rest: int, at: int, sizes: Chunks)
    requires Indexed(holes, index) && k < |index| && (rest > 0 ==> at !in holes)
    ensures Indexed(NewHoles(holes, index[k], keep, rest, at), NewIndex(index, k, keep, rest, at, sizes))
  {
    if !keep {
      IndexReplaced(holes, index, k);
    }
    if rest > 0 {
      IndexExtended(if keep then holes else holes - {index[k]}, if keep then index else RemoveAt(index, k), at, sizes);
    }
  }

  lemma HolesSplit(holes: set<int>, a: int, keep: bool, rest: int, at: int)
    requires a in holes
    ensures NewHoles(holes, a, keep, rest, at) == holes - {a} + NewHoles({a}, a, keep, rest, at)
  {
  }

  lemma CarvedHoles(h: Heap, k: nat, n: int, align: bool)
    requires k < |h.index| && h.index[k] in h.holes
    ensures var a := h.index[k];
      Carved(h, k, n, align).holes == h.holes - {a} + PieceHoles(a, SizeOf(h.sizes, a), n, align)
  {
    var a := h.index[k];
    var size, block := SizeOf(h.sizes, a), BlockOf(a, align);
    HolesSplit(h.holes, a, block != a, RestOf(a, size, n, align), Wrap(block + BlockSize(size, n)));
    hide NewHoles, NewIndex, BlockOf, RestOf, Wrap, BlockSize, Pieces;
  }

  lemma CarvedIndexed(h: Heap, k: nat, n: int, align: bool)
    requires Inv(h) && k < |h.index|
    requires var a := h.index[k]; var size := SizeOf(h.sizes, a);
      && (align && a >= PAGE <==> BlockOf(a, align) != a)
      && (RestOf(a, size, n, align) > 0 ==> a < Wrap(BlockOf(a, align) + BlockSize(size, n)) < a + size)
    ensures Indexed(Carved(h, k, n, align).holes, Carved(h, k, n, align).index)
  {
    hide Tiles, Coalesced, Indexed, NewHoles, NewIndex, Pieces, BlockOf, RestOf, Wrap, BlockSize;
    var a := h.index[k];
    var size := SizeOf(h.sizes, a);
    var block, rest := BlockOf(a, align), RestOf(a, size, n, align);
    var at := Wrap(block + BlockSize(size, n));
    HoleBounds(h, k);
    if rest > 0 {
      InsideChunk(h, a, at);
    }
    NewIndexed(h.holes, h.index, k, block != a, rest, at, Carved(h, k, n, align).sizes);
  }

  /** Carving a hole keeps the invariant if its pieces tile it. */
  lemma CarvedKeepsInv(h: Heap, k: nat, n: int, align: bool)
    requires Inv(h) && k < |h.index|
    requires var a := h.index[k]; var size := SizeOf(h.sizes, a);
      var d, dHoles := Pieces(a, size, n, align), PieceHoles(a, size, n, align);
      && Tiles(d, a, a + size) && Coalesced(d, dHoles) && dHoles <= d.Keys
      && (align && a >= PAGE <==> BlockOf(a, align) != a)
      && (RestOf(a, size, n, align) > 0 ==> a < Wrap(BlockOf(a, align) + BlockSize(size, n)) < a + size)
    ensures Inv(Carved(h, k, n, align))
  {
    hide Tiles, Coalesced, Indexed, NewHoles, NewIndex, PieceHoles, Pieces, BlockOf, RestOf, Wrap, BlockSize;
    var a := h.index[k];
    var size := SizeOf(h.sizes, a);
    HoleBounds(h, k);
    CarvedHoles(h, k, n, align);
    CarvedIndexed(h, k, n, align);
    ReplaceHole(h, a, Pieces(a, size, n, align), PieceHoles(a, size, n, align));
  }

  lemma CarvedPlain(h: Heap, k: nat, n: int)
    requires Inv(h) && k < |h.index| && TAGS <= n <= SizeOf(h.sizes, h.index[k])
    ensures Inv(Carved(h, k, n, false))
  {
    hide Tiles, Coalesced, Pieces, PieceHoles, RestOf, BlockSize, Wrap, Carved, Indexed;
    var a := h.index[k];
    HoleBounds(h, k);
    var size := h.sizes[a];
    PiecesPlainTile(a, size, n);
    if size < n + TAGS {
      PiecesWhole(a, size, n);
    } else {
      PiecesSplit(a, size, n);
      WrapSmall(a + n);
    }
    CarvedKeepsInv(h, k, n, false);
  }

  lemma CarvedAligned(h: Heap, k: nat, n: int)
    requires Inv(h) && k < |h.index| && TAGS <= n && AlignedFits(h.index[k], SizeOf(h.sizes, h.index[k]), n)
    ensures Inv(Carved(h, k, n, true))
  {
    hide Tiles, Coalesced, Pieces, PieceHoles, RestOf, BlockSize, BlockOf, FrontSize, Wrap, Carved, Indexed;
    var a := h.index[k];
    HoleBounds(h, k);
    var size := h.sizes[a];
    PiecesAlignedTile(a, size, n);
    PiecesAligned(a, size, n);
    AlignedSizes(a, size, n);
    CarvedKeepsInv(h, k, n, true);
  }

  /** The blocks of g are those of h, unchanged, and one new block of n bytes or more. */
  ghost predicate NewBlock(h: Heap, g: Heap, block: int, n: int) {
    && BlockAt(g, block) && !BlockAt(h, block) && n <= g.sizes[block]
    && (forall b :: BlockAt(g, b) <==> BlockAt(h, b) || b == block)
    && (forall b :: BlockAt(h, b) ==> g.sizes[b] == h.sizes[b])
    && g.start == h.start && g.max == h.max && h.end <= g.end
  }

  lemma ReplacedBlocks(h: Heap, a: int, d: Chunks, dHoles: set<int>, block: int)
    requires Inv(h) && a in h.holes && a in d && d.Keys == dHoles + {block} && block !in dHoles
    requires forall x :: x in d ==> a <= x < a + SizeOf(h.sizes, a)
    ensures !BlockAt(h, block) && (forall b :: BlockAt(h, b) ==> b in h.sizes && b !in d)
    ensures forall b :: b in h.sizes + d && b !in h.holes - {a} + dHoles <==> BlockAt(h, b) || b == block
  {
    forall b | b in d && b != a ensures b !in h.sizes && b !in h.holes {
      InsideChunk(h, a, b);
    }
    assert block in d;
  }

  lemma CarvedBlocks(h: Heap, k: nat, n: int, align: bool)
    requires Inv(h) && k < |h.index| && TAGS <= n && n <= SizeOf(h.sizes, h.index[k])
    requires align ==> AlignedFits(h.index[k], SizeOf(h.sizes, h.index[k]), n)
    ensures NewBlock(h, Carved(h, k, n, align), BlockOf(h.index[k], align), n)
  {
    hide Tiles, Coalesced, Indexed, Pieces, PieceHoles, RestOf, BlockSize, FrontSize, NewHoles, NewIndex;
    var a := h.index[k];
    HoleBounds(h, k);
    var size := h.sizes[a];
    CarvedHoles(h, k, n, align);
    if align {
      PiecesAligned(a, size, n);
      AlignedSizes(a, size, n);
    } else if size < n + TAGS {
      PiecesWhole(a, size, n);
    } else {
      PiecesSplit(a, size, n);
    }
    ReplacedBlocks(h, a, Pieces(a, size, n, align), PieceHoles(a, size, n, align), BlockOf(a, align));
  }

  lemma PiecesInside(h: Heap, k: nat, n: int, align: bool)
    requires Inv(h) && k < |h.index| && TAGS <= n && n <= SizeOf(h.sizes, h.index[k])
    requires align ==> AlignedFits(h.index[k], SizeOf(h.sizes, h.index[k]), n)
    ensures var a := h.index[k]; var size := SizeOf(h.sizes, a);
      var d, dHoles := Pieces(a, size, n, align), PieceHoles(a, size, n, align);
      a in d && dHoles <= d.Keys && (forall x :: x in d ==> a <= x < a + size)
  {
    hide Tiles, Coalesced, Indexed, Pieces, PieceHoles, RestOf, BlockSize, FrontSize;
    var a := h.index[k];
    HoleBounds(h, k);
    var size := h.sizes[a];
    if align {
      PiecesAligned(a, size, n);
      AlignedSizes(a, size, n);
    } else if size < n + TAGS {
      PiecesWhole(a, size, n);
    } else {
      PiecesSplit(a, size, n);
    }
  }

  /** Carving for a request that the chosen hole covers keeps the invariant. */
  lemma CarvedValid(h: Heap, k: nat, n: int, align: bool)
    requires Inv(h) && k < |h.index| && TAGS <= n && n <= SizeOf(h.sizes, h.index[k])
    requires align ==> AlignedFits(h.index[k], SizeOf(h.sizes, h.index[k]), n)
    ensures Inv(Carved(h, k, n, align))
  {
    if align {
      CarvedAligned(h, k, n);
    } else {
      CarvedPlain(h, k, n);
    }
  }

  // ---------------------------------------------------------------- growth

  /** What growth keeps: every block; and it leaves a hole of the added size or more at the new end. */
  ghost predicate GrownFrom(h: Heap, g: Heap, added: int) {
    && g.end == h.end + added && g.start == h.start && g.max == h.max
    && (forall b :: BlockAt(g, b) <==> BlockAt(h, b))
    && (forall b :: BlockAt(h, b) ==> g.sizes[b] == h.sizes[b])
    && EndHole(g) in g.holes && EndHole(g) in g.sizes
    && EndHole(g) + g.sizes[EndHole(g)] == g.end && added <= g.sizes[EndHole(g)]
    && (forall a :: a in g.holes && a != EndHole(g) ==>
          a in h.holes && a in g.sizes && a in h.sizes && g.sizes[a] == h.sizes[a])
  }

  lemma LastHole(h: Heap, last: int, size: int)
    requires Inv(h) && last in h.holes && last + h.sizes[last] == h.end && h.sizes[last] <= size
    ensures TAGS <= size && last in h.sizes && last <= h.end && h.end !in h.sizes && h.end !in h.holes
    ensures forall a :: a in h.holes ==> a in h.sizes && a + h.sizes[a] != last
    ensures Splice(h.sizes, last, h.end, map[last := size]) == h.sizes[last := size]
    ensures SpliceHoles(h.holes, last, h.end, {last}) == h.holes
  {
  }

  lemma ExtendLast(h: Heap, last: int, added: nat)
    requires Inv(h) && last in h.holes && last + h.sizes[last] == h.end && h.end + added <= h.max
    ensures Inv(h.(end := h.end + added, sizes := h.sizes[last := h.sizes[last] + added]))
  {
    hide Tiles, Indexed, Splice, SpliceHoles;
    var size := h.sizes[last] + added;
    var d := map[last := size];
    LastHole(h, last, size);
    OneChunk(last, size);
    SpliceTiles(h.sizes, h.start, h.end, last, h.end, d, h.end + added, h.end + added);
    SpliceCoalesced(h.sizes, h.holes, h.start, h.end, last, h.end, d, {last}, h.end + added, h.end + added);
  }

  lemma AppendHole(h: Heap, added: nat)
    requires Inv(h) && h.index == [] && TAGS <= added && h.end + added <= h.max
    ensures Inv(Lengthened(h, h.end + added, added))
    ensures h.end !in h.sizes && Lengthened(h, h.end + added, added).index == [h.end]
  {
    Append(h.sizes, h.start, h.end, added);
    assert h.holes == {} by {
      assert forall a :: a in h.holes ==> a in h.index;
    }
    IndexExtended(h.holes, h.index, h.end, h.sizes[h.end := added]);
  }

  lemma LengthenedKeepsInv(h: Heap, added: int)
    requires Inv(h) && TAGS <= added && h.end + added <= h.max && EndHoleAbuts(h)
    ensures var g := Lengthened(h, h.end + added, added);
      Inv(g) && GrownFrom(h, g, added)
  {
    if h.index == [] {
      AppendHole(h, added);
    } else {
      var last := EndHole(h);
      HoleBounds(h, Endmost(h.index));
      assert Wrap(h.sizes[last] + added) == h.sizes[last] + added;
      ExtendLast(h, last, added);
    }
  }

  lemma RoundedPlain(length: int)
    requires 0 <= length && length + (if length % 2 == 1 then PAGE - length % PAGE else 0) < TWO32
    ensures Rounded(length) == length + (if length % 2 == 1 then PAGE - length % PAGE else 0)
  {
  }

  /** How far the heap grows. */
  lemma GrowthAmount(h: Heap, n: int) returns (added: int)
    requires Placed(h) && TAGS <= n && ExpandAsserts(h, n) && GrowthInRange(h, n)
    ensures n <= added && h.end + added <= h.max && Grown(h, n) == Lengthened(h, h.end + added, added)
    ensures h.end + added == Wrap(h.start + Rounded(Wrap(Length(h) + n)))
  {
    assert Length(h) + n < TWO32;
    WrapSmall(Length(h) + n);
    RoundedPlain(Length(h) + n);
    var end := h.start + Rounded(Length(h) + n);
    WrapSmall(end);
    added := end - h.end;
    WrapSmall(added);
    hide Wrap, Rounded;
  }

  /** Growth keeps the invariant if the endmost hole abuts the old end; the end hole is then large enough. */
  lemma GrownKeepsInv(h: Heap, n: int)
    requires Inv(h) && TAGS <= n && ExpandAsserts(h, n) && GrowthInRange(h, n) && EndHoleAbuts(h)
    ensures Inv(Grown(h, n)) && n <= Grown(h, n).end - h.end && GrownFrom(h, Grown(h, n), Grown(h, n).end - h.end)
  {
    var added := GrowthAmount(h, n);
    LengthenedKeepsInv(h, added);
  }

  // ---------------------------------------------------------------- alloc

  lemma {:induction false} AllocKeepsInv(h: Heap, n: int, align: bool)
    requires Inv(h) && TAGS <= n < TWO32 && AllocReady(h, n, align)
    ensures var r := Alloc(h, n, align);
      r.Allocated? ==> Inv(r.heap) && NewBlock(h, r.heap, r.block, n)
    decreases TWO32 - h.end
  {
    var k := Search(h, n, align, 0);
    if k < |h.index| {
      if align {
        CarvedAligned(h, k, n);
      } else {
        CarvedPlain(h, k, n);
      }
      CarvedBlocks(h, k, n, align);
    } else if ExpandAsserts(h, n) {
      GrownKeepsInv(h, n);
      AllocKeepsInv(Grown(h, n), n, align);
    }
  }

  // ---------------------------------------------------------------- free

  /** The hole that freeing makes lies between two chunk boundaries and meets no hole. */
  lemma MergedBounds(h: Heap, a: int)
    requires Inv(h) && BlockAt(h, a)
    ensures var lo, hi := MergedLo(h, a), MergedHi(h, a);
      && h.start <= lo <= a && a + h.sizes[a] <= hi <= h.end && lo in h.sizes
      && (hi in h.sizes || hi == h.end) && hi !in h.holes
      && (forall b :: b in h.holes ==> b in h.sizes && b + h.sizes[b] != lo)
      && (lo != a ==> lo in h.holes && lo + h.sizes[lo] == a)
      && (hi != a + h.sizes[a] ==> a + h.sizes[a] in h.holes && hi == a + h.sizes[a] + SizeOf(h.sizes, a + h.sizes[a]))
      && (MergesLeft(h, a) <==> lo != a)
  {
  }

  /** Only the freed block and the holes it merges with start between the bounds. */
  lemma MergedChunks(h: Heap, a: int, b: int)
    requires Inv(h) && BlockAt(h, a) && b in h.sizes && MergedLo(h, a) <= b < MergedHi(h, a)
    ensures b == a || (b == MergedLo(h, a) && MergesLeft(h, a)) || (b == a + h.sizes[a] && MergesRight(h, a))
  {
    MergedBounds(h, a);
  }

  lemma FreedIndexed(h: Heap, a: int)
    requires Inv(h) && BlockAt(h, a)
    ensures Indexed(Freed(h, a).holes, Freed(h, a).index)
  {
    hide Tiles, Coalesced, Indexed, MergedLo, MergedHi, MergesLeft, FreedSize, FreedLength, Contracted, Splice;
    hide IndexInsert, Without;
    var lo, hi := MergedLo(h, a), MergedHi(h, a);
    var right := a + h.sizes[a];
    MergedBounds(h, a);
    var holes := h.holes;
    var index := h.index;
    if MergesRight(h, a) {
      IndexWithout(holes, index, right);
      holes, index := holes - {right}, Without(index, right);
    }
    if !MergesLeft(h, a) {
      assert lo == a;
      IndexExtended(holes, index, lo, Freed(h, a).sizes);
      holes, index := holes + {lo}, IndexInsert(index, lo, Freed(h, a).sizes);
    }
    FreedHoles(h, a);
    assert Freed(h, a).index == index;
    assert Freed(h, a).holes == holes;
  }

  lemma FreedHoles(h: Heap, a: int)
    requires Inv(h) && BlockAt(h, a)
    ensures var right := a + h.sizes[a]; var lo := MergedLo(h, a);
      SpliceHoles(h.holes, lo, MergedHi(h, a), {lo})
      == (if MergesRight(h, a) then h.holes - {right} else h.holes) + (if MergesLeft(h, a) then {} else {lo})
  {
    hide Coalesced;
    MergedBounds(h, a);
    forall b | b in h.holes && MergedLo(h, a) <= b < MergedHi(h, a)
      ensures b == MergedLo(h, a) || (MergesRight(h, a) && b == a + h.sizes[a])
    {
      MergedChunks(h, a, b);
    }
  }

  /** The size and the length after a contraction that meets its condition. */
  lemma FreedAmounts(h: Heap, a: int)
    requires Inv(h) && BlockAt(h, a) && ContractFits(h, a)
    ensures TAGS <= FreedSize(h, a) && Wrap(h.start + FreedLength(h, a)) == h.start + FreedLength(h, a)
    ensures MergedHi(h, a) != h.end ==>
      FreedSize(h, a) == MergedHi(h, a) - MergedLo(h, a) && h.start + FreedLength(h, a) == h.end
    ensures MergedHi(h, a) == h.end ==>
      && FreedLength(h, a) == HEAP_MIN_SIZE && MergedLo(h, a) + FreedSize(h, a) == h.start + HEAP_MIN_SIZE <= h.max
      && FreedSize(h, a) == Wrap(MergedHi(h, a) - MergedLo(h, a) - (Length(h) - FreedLength(h, a)))
  {
    hide Tiles, Coalesced, Indexed, MergedLo, MergedHi, Wrap;
    MergedBounds(h, a);
    AtLeastTags(h, a);
    var lo, hi := MergedLo(h, a), MergedHi(h, a);
    if hi == h.end {
      var off := lo - h.start;
      ContractedLow(off);
      WrapSmall(HEAP_MIN_SIZE - off);
      WrapSmall(h.start + HEAP_MIN_SIZE);
    } else {
      WrapSmall(hi - lo);
      WrapSmall(h.end);
    }
  }

  lemma ReadyFits(h: Heap, a: int)
    requires FreeReady(h, a)
    ensures ContractFits(h, a) && (MergedHi(h, a) == h.end ==> h.start + HEAP_MIN_SIZE <= h.end)
  {
  }

  lemma AtLeastTags(h: Heap, a: int)
    requires Inv(h) && a in h.sizes
    ensures TAGS <= h.sizes[a] && h.start <= a && a + h.sizes[a] <= h.end
  {
  }

  lemma ContractedLow(off: int)
    requires 0 <= off < HEAP_MIN_SIZE
    ensures Contracted(off) == HEAP_MIN_SIZE
  {
  }

  /** Freeing keeps the invariant if a contraction it triggers meets its condition. */
  lemma FreedKeepsInv(h: Heap, a: int)
    requires Inv(h) && BlockAt(h, a) && ContractFits(h, a)
    ensures Inv(Freed(h, a))
  {
    hide Tiles, Indexed, MergedLo, MergedHi, MergesLeft, MergesRight, FreedSize, FreedLength, Splice, SpliceHoles;
    hide ContractFits, Wrap;
    MergedBounds(h, a);
    FreedAmounts(h, a);
    FreedIndexed(h, a);
    var lo, hi, size := MergedLo(h, a), MergedHi(h, a), FreedSize(h, a);
    var d := map[lo := size];
    OneChunk(lo, size);
    var end := h.start + FreedLength(h, a);
    AtLeastTags(h, a);
    SpliceTiles(h.sizes, h.start, h.end, lo, hi, d, lo + size, end);
    SpliceCoalesced(h.sizes, h.holes, h.start, h.end, lo, hi, d, {lo}, lo + size, end);
    SpliceDomain(h.sizes, h.holes, lo, hi, d, {lo});
  }

  lemma SpliceDomain(c: Chunks, holes: set<int>, lo: int, hi: int, d: Chunks, dHoles: set<int>)
    requires holes <= c.Keys && dHoles <= d.Keys
    ensures SpliceHoles(holes, lo, hi, dHoles) <= Splice(c, lo, hi, d).Keys
  {
  }

  /** Freeing removes one block and changes no other. */
  lemma FreedBlocks(h: Heap, a: int)
    requires Inv(h) && BlockAt(h, a)
    ensures forall b :: BlockAt(Freed(h, a), b) <==> BlockAt(h, b) && b != a
    ensures forall b :: BlockAt(h, b) && b != a ==> Freed(h, a).sizes[b] == h.sizes[b]
    ensures Freed(h, a).start == h.start && Freed(h, a).max == h.max
  {
    hide Tiles, Coalesced, Indexed, MergedHi, MergedLo, FreedSize, FreedLength, MergesRight;
    MergedBounds(h, a);
    AtLeastTags(h, a);
    forall b | BlockAt(h, b) && b != a ensures !(MergedLo(h, a) <= b < MergedHi(h, a)) {
      OtherBlock(h, a, b);
    }
  }

  lemma OtherBlock(h: Heap, a: int, b: int)
    requires Inv(h) && BlockAt(h, a) && BlockAt(h, b) && a != b
    ensures !(MergedLo(h, a) <= b < MergedHi(h, a))
  {
    hide Tiles, Coalesced, Indexed, MergedHi, MergedLo;
    MergedBounds(h, a);
    if MergedLo(h, a) <= b < MergedHi(h, a) {
      MergedChunks(h, a, b);
    }
  }
}
