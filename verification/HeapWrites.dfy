/** The memory accesses of alloc and free, and what they do to the boundary tags. */
module HeapWrites {
  import opened Machine
  import opened OrderedArrays
  import opened Tiling
  import opened HeapSpec
  import opened HeapInvariant
  import opened HeapMemory
  import opened HeapSteps

  // ---------------------------------------------------------------- memory accesses

  method ReadWord(ram: array<u8>, a: int) returns (v: int)
    requires ram.Length == TWO32 && 0 <= a && a + 4 <= TWO32
    ensures v == Word(ram[..], a)
  {
    var b0: int, b1: int, b2: int, b3: int := ram[a], ram[a + 1], ram[a + 2], ram[a + 3];
    v := b0 + 0x100 * b1 + 0x1_0000 * b2 + 0x100_0000 * b3;
  }

  method WriteWord(ram: array<u8>, a: int, v: int)
    requires ram.Length == TWO32 && 0 <= a && a + 4 <= TWO32 && 0 <= v < TWO32
    modifies ram
    ensures Word(ram[..], a) == v && SameOutside(old(ram[..]), ram[..], a, a + 4)
    ensures ram[a] == v % 0x100 && ram[a + 1] == v / 0x100 % 0x100
    ensures ram[a + 2] == v / 0x1_0000 % 0x100 && ram[a + 3] == v / 0x100_0000
  {
    WordDigits(v);
    var bytes := WordBytes(v);
    ram[a], ram[a + 1], ram[a + 2], ram[a + 3] := bytes[0], bytes[1], bytes[2], bytes[3];
    assert ram[..][a..a + 4] == bytes;
    WordOfBytes(ram[..], a, v);
  }

  /** Writes the three header fields; the padding after the hole flag keeps its bytes. */
  method WriteHeader(ram: array<u8>, a: int, size: int, hole: bool)
    requires ram.Length == TWO32 && 0 <= a && a + HEADER <= TWO32 && 0 <= size < TWO32
    modifies ram
    ensures HeaderAt(ram[..], a, size, hole) && SameOutside(old(ram[..]), ram[..], a, a + HEADER)
  {
    WriteWord(ram, a, HEAP_MAGIC);
    ram[a + 4] := if hole then 1 else 0;
    WriteWord(ram, a + 8, size);
  }

  method WriteFooter(ram: array<u8>, at: int, header: int)
    requires ram.Length == TWO32 && 0 <= at && at + FOOTER <= TWO32 && 0 <= header < TWO32
    modifies ram
    ensures FooterAt(ram[..], header, at + FOOTER - header) && SameOutside(old(ram[..]), ram[..], at, at + FOOTER)
  {
    WriteWord(ram, at, HEAP_MAGIC);
    WriteWord(ram, at + 4, header);
  }

  method WriteTags(ram: array<u8>, a: int, size: int, hole: bool, footer: int)
    requires ram.Length == TWO32 && 0 <= a && a + size <= TWO32 && TAGS <= size < TWO32
    requires footer == a + size - FOOTER
    modifies ram
    ensures TagsAt(ram[..], a, size, hole) && SameOutside(old(ram[..]), ram[..], a, a + size)
  {
    WriteHeader(ram, a, size, hole);
    WriteFooter(ram, footer, a);
  }

  /** header_t_less_than: compares the size fields of two headers. */
  function HeaderLess(m: seq<u8>): (int, int) -> bool {
    (a: int, b: int) =>
      0 <= a && a + HEADER <= |m| && 0 <= b && b + HEADER <= |m| && Word(m, a + 8) < Word(m, b + 8)
  }

  /** Comparing headers in memory finds the same place as comparing the sizes of the chunks. */
  lemma HeaderOrder(m: seq<u8>, sizes: Chunks, index: seq<int>, a: int)
    requires |m| == TWO32 && a in sizes && HeaderAt(m, a, sizes[a], true)
    requires forall b :: b in index ==> b in sizes && HeaderAt(m, b, sizes[b], true)
    ensures Inserted(index, a, HeaderLess(m)) == IndexInsert(index, a, sizes)
  {
    forall i | 0 <= i < |index| ensures HeaderLess(m)(index[i], a) == SizeLess(sizes)(index[i], a) {
      assert index[i] in index;
    }
    SlotAgrees(index, a, HeaderLess(m), SizeLess(sizes), 0);
  }

  /** The memory holds the tags of the given chunks. */
  ghost predicate TagsOf(m: seq<u8>, d: Chunks, dHoles: set<int>)
    requires |m| == TWO32
  {
    forall a :: a in d ==> TagsAt(m, a, d[a], a in dHoles)
  }

  /** Writes the tags of a block of the given size, header at a. */
  method WriteBlock(ram: array<u8>, a: int, size: int, payload: int)
    requires ram.Length == TWO32 && 0 <= a && a + size < TWO32 && TAGS <= size && payload == size - TAGS
    modifies ram
    ensures TagsAt(ram[..], a, size, false) && SameOutside(old(ram[..]), ram[..], a, a + size)
  {
    WrapSmall(a + HEADER + payload);
    WriteTags(ram, a, size, false, Wrap(a + HEADER + payload));
  }

  /** Writes the tags of the hole behind a block, if anything is left there. */
  method WriteRest(ram: array<u8>, at: int, rest: int, end: int)
    requires ram.Length == TWO32 && 0 <= at && at + rest < TWO32 && (rest == 0 || TAGS <= rest) && at + rest <= end
    modifies ram
    ensures rest > 0 ==> TagsAt(ram[..], at, rest, true)
    ensures SameOutside(old(ram[..]), ram[..], at, at + rest)
  {
    if rest > 0 {
      WrapSmall(at + rest - FOOTER);
      var footer := Wrap(at + rest - FOOTER);
      WriteHeader(ram, at, rest, true);
      if footer < end {
        WriteFooter(ram, footer, at);
      }
    }
  }

  /** The tags that an unaligned alloc writes into the hole at a. */
  method WritePlain(ram: array<u8>, a: int, holeSize: int, size: int, end: int) returns (at: int, rest: int)
    requires ram.Length == TWO32 && 0 <= a && a + holeSize <= end < TWO32
    requires 0 <= size && size + TAGS <= holeSize
    modifies ram
    ensures var n := size + TAGS; TagsOf(ram[..], Pieces(a, holeSize, n, false), PieceHoles(a, holeSize, n, false))
    ensures SameOutside(old(ram[..]), ram[..], a, a + holeSize)
    ensures at == Wrap(a + BlockSize(holeSize, size + TAGS)) && rest == RestOf(a, holeSize, size + TAGS, false)
  {
    hide Pieces, PieceHoles, TagsAt, RestOf, BlockSize;
    var newSize, payload := size + TAGS, size;
    WrapSmall(holeSize - newSize);
    if Wrap(holeSize - newSize) < TAGS {
      PiecesWhole(a, holeSize, newSize);
      WrapSmall(payload + holeSize - newSize);
      payload, newSize := Wrap(payload + holeSize - newSize), holeSize;
    } else {
      PiecesSplit(a, holeSize, newSize);
    }
    WriteBlock(ram, a, newSize, payload);
    ghost var m := ram[..];
    WrapSmall(a + newSize);
    WrapSmall(holeSize - newSize);
    at, rest := Wrap(a + HEADER + payload + FOOTER), Wrap(holeSize - newSize);
    WriteRest(ram, at, rest, end);
    TagsStay(m, ram[..], at, at + rest, a, newSize, false);
  }

  lemma TagsStay(m: seq<u8>, m': seq<u8>, lo: int, hi: int, a: int, size: int, hole: bool)
    requires |m| == TWO32 && SameOutside(m, m', lo, hi) && (a + size <= lo || hi <= a) && TAGS <= size
    requires a + size <= TWO32
    requires TagsAt(m, a, size, hole)
    ensures TagsAt(m', a, size, hole)
  {
    TagsFrame(m, m', lo, hi, a, size, hole);
  }

  /** The tags that a page-aligned alloc writes into the hole at a. */
  method WriteAligned(ram: array<u8>, a: int, holeSize: int, size: int, end: int)
    returns (block: int, at: int, rest: int)
    requires ram.Length == TWO32 && PAGE <= a && a + holeSize <= end < TWO32
    requires 0 <= size && AlignedFits(a, holeSize, size + TAGS)
    modifies ram
    ensures var n := size + TAGS; TagsOf(ram[..], Pieces(a, holeSize, n, true), PieceHoles(a, holeSize, n, true))
    ensures SameOutside(old(ram[..]), ram[..], a, a + holeSize)
    ensures block == BlockOf(a, true) && at == Wrap(block + BlockSize(holeSize, size + TAGS))
    ensures rest == RestOf(a, holeSize, size + TAGS, true)
  {
    hide Pieces, PieceHoles, TagsAt, RestOf, BlockOf, BlockSize, FrontSize, AlignedFits, Wrap, SameOutside;
    var newSize, payload := size + TAGS, size;
    PiecesAligned(a, holeSize, newSize);
    AlignedSizes(a, holeSize, newSize);
    AlignedWraps(a, holeSize, newSize);
    ghost var m0 := ram[..];
    if Wrap(holeSize - newSize) < TAGS {
      payload, newSize := Wrap(payload + holeSize - newSize), holeSize;
    }
    var location := Wrap(a + PAGE - a % PAGE - HEADER);
    var front := Wrap(PAGE - a % PAGE - HEADER);
    WriteTags(ram, a, front, true, Wrap(location - FOOTER));
    ghost var m := ram[..];
    SameWithin(m0, m0, m, a, a + holeSize, a, a + front);
    block := location;
    var left := Wrap(holeSize - front);
    WriteBlock(ram, block, newSize, payload);
    TagsStay(m, ram[..], block, block + newSize, a, front, true);
    SameWithin(m0, m, ram[..], a, a + holeSize, block, block + newSize);
    m := ram[..];
    at, rest := Wrap(block + HEADER + payload + FOOTER), Wrap(left - newSize);
    WriteRest(ram, at, rest, end);
    TagsStay(m, ram[..], at, at + rest, a, front, true);
    TagsStay(m, ram[..], at, at + rest, block, newSize, false);
    SameWithin(m0, m, ram[..], a, a + holeSize, at, at + rest);
  }

  /** None of the sums and differences of a page-aligned alloc wraps. */
  lemma AlignedWraps(a: int, holeSize: int, n: int)
    requires PAGE <= a && TAGS <= n && a + holeSize < TWO32 && AlignedFits(a, holeSize, n)
    ensures TAGS <= FrontSize(a) == Wrap(PAGE - a % PAGE - HEADER) && FrontSize(a) + n <= holeSize
    ensures holeSize == FrontSize(a) + n || FrontSize(a) + n + TAGS <= holeSize
    ensures Wrap(a + PAGE - a % PAGE - HEADER) == BlockOf(a, true) == a + FrontSize(a)
    ensures Wrap(BlockOf(a, true) - FOOTER) == a + FrontSize(a) - FOOTER && Wrap(holeSize - n) == holeSize - n
    ensures Wrap(holeSize - FrontSize(a)) == holeSize - FrontSize(a)
    ensures Wrap(holeSize - FrontSize(a) - n) == holeSize - FrontSize(a) - n
    ensures Wrap(BlockOf(a, true) + n) == a + FrontSize(a) + n
  {
    AlignedSizes(a, holeSize, n);
  }

  lemma SameWithin(m: seq<u8>, m1: seq<u8>, m2: seq<u8>, lo: int, hi: int, from: int, to: int)
    requires SameOutside(m, m1, lo, hi) && SameOutside(m1, m2, from, to) && lo <= from && to <= hi
    ensures SameOutside(m, m2, lo, hi)
  {
  }

  /** Inserting into the kept part of an index by the headers in memory gives the new index. */
  lemma InsertByHeaders(m: seq<u8>, g: Heap, kept: seq<int>, at: int)
    requires Inv(g) && HeadersIn(m, g) && g.index == IndexInsert(kept, at, g.sizes)
    ensures Inserted(kept, at, HeaderLess(m)) == g.index
  {
    InsertedMembers(kept, at, SizeLess(g.sizes));
    hide Tiles, Coalesced;
    forall b | b in kept || b == at ensures b in g.sizes && HeaderAt(m, b, g.sizes[b], true) {
      assert b in g.index;
    }
    HeaderOrder(m, g.sizes, kept, at);
  }

  /** What carving does to the memory: the new tags are there, and nothing else is written. */
  lemma CarvedMemory(m: seq<u8>, m': seq<u8>, h: Heap, k: nat, n: int, align: bool)
    requires Inv(h) && Encodes(m, h) && k < |h.index| && TAGS <= n <= SizeOf(h.sizes, h.index[k])
    requires align ==> AlignedFits(h.index[k], SizeOf(h.sizes, h.index[k]), n)
    requires var a := h.index[k]; var size := SizeOf(h.sizes, a);
      SameOutside(m, m', a, a + size) && TagsOf(m', Pieces(a, size, n, align), PieceHoles(a, size, n, align))
    ensures Encodes(m', Carved(h, k, n, align)) && HeadersIn(m', Carved(h, k, n, align)) && Kept(m, m', h, h.end, -1)
  {
    hide Tiles, Coalesced, Indexed, Pieces, PieceHoles, TagsAt, SameOutside, Kept, Encodes, HeadersIn, NewHoles;
    hide NewIndex;
    EncodesHeaders(m', Carved(h, k, n, align));
    var a := h.index[k];
    HoleBounds(h, k);
    var size := h.sizes[a];
    var d, dHoles := Pieces(a, size, n, align), PieceHoles(a, size, n, align);
    PiecesInside(h, k, n, align);
    CarvedHoles(h, k, n, align);
    HoleSplice(h, a, d, dHoles);
    EncodesSplice(m, m', h, Carved(h, k, n, align), a, a + size, d, dHoles);
    HoleKept(m, m', h, a);
  }

  lemma EncodesHeaders(m: seq<u8>, h: Heap)
    ensures Encodes(m, h) ==> HeadersIn(m, h)
  {
  }

  lemma HoleKept(m: seq<u8>, m': seq<u8>, h: Heap, a: int)
    requires Inv(h) && a in h.holes && SameOutside(m, m', a, a + SizeOf(h.sizes, a))
    ensures Kept(m, m', h, h.end, -1)
  {
    hide Coalesced, Indexed;
  }

  /** What growth does to the memory: the end hole has its new tags, and nothing else is written. */
  lemma GrownMemory(m: seq<u8>, m': seq<u8>, h: Heap, added: int)
    requires Inv(h) && Encodes(m, h) && EndHoleAbuts(h) && TAGS <= added && h.end + added <= h.max
    requires SameOutside(m, m', EndHole(h), h.end + added)
    requires TagsAt(m', EndHole(h), SizeOf(h.sizes, EndHole(h)) + added, true)
    ensures Encodes(m', Lengthened(h, h.end + added, added)) && Kept(m, m', h, h.end + added, -1)
  {
    hide Inv, TagsAt, SameOutside, Kept, Encodes, OneHole, Lengthened, EndHole, EndHoleAbuts, Splice, SpliceHoles;
    var a := EndHole(h);
    var size := SizeOf(h.sizes, a) + added;
    EndHoleBounds(h);
    EndHoleLone(h);
    PlacedBounds(h);
    LengthenedChunks(h, added);
    EndSplice(h, added);
    EncodesSplice(m, m', h, Lengthened(h, h.end + added, added), a, h.end + added, map[a := size], {a});
    EndKept(m, m', h, h.end + added);
  }

  lemma EndHoleLone(h: Heap)
    requires Inv(h) && EndHoleAbuts(h)
    ensures h.index == [] ==> !OneHole(h)
  {
    EndHoleBounds(h);
  }

  lemma LengthenedChunks(h: Heap, added: int)
    requires 0 <= SizeOf(h.sizes, EndHole(h)) + added < TWO32 && 0 <= SizeOf(h.sizes, EndHole(h))
    requires if h.index == [] then SizeOf(h.sizes, EndHole(h)) == 0 else EndHole(h) in h.holes
    ensures var g := Lengthened(h, h.end + added, added); var a := EndHole(h);
      g.sizes == h.sizes[a := SizeOf(h.sizes, a) + added] && g.holes == h.holes + {a}
  {
    hide IndexInsert, EndHole;
    WrapSmall(SizeOf(h.sizes, EndHole(h)) + added);
  }

  lemma EndHoleBounds(h: Heap)
    requires Inv(h) && EndHoleAbuts(h)
    ensures var a := EndHole(h);
      h.start <= a <= h.end && 0 <= SizeOf(h.sizes, a) == h.end - a
    ensures h.index != [] ==> EndHole(h) in h.holes && EndHole(h) in h.sizes
    ensures h.index == [] ==> EndHole(h) == h.end && h.end !in h.sizes && h.holes == {}
  {
    if h.index == [] {
      assert forall b :: b in h.holes ==> b in h.index;
    } else {
      HoleBounds(h, Endmost(h.index));
    }
  }

  lemma EndSplice(h: Heap, added: int)
    requires Inv(h) && EndHoleAbuts(h) && 0 < added
    ensures var a := EndHole(h); var size := SizeOf(h.sizes, a) + added;
      && h.sizes[a := size] == Splice(h.sizes, a, h.end + added, map[a := size])
      && h.holes + {a} == SpliceHoles(h.holes, a, h.end + added, {a})
  {
    hide Inv, EndHole, EndHoleAbuts, Splice, SpliceHoles;
    EndHoleBounds(h);
    EndHoleLast(h);
    var a := EndHole(h);
    SpliceLast(h.sizes, h.holes, a, h.end + added, SizeOf(h.sizes, a) + added);
  }

  lemma EndHoleLast(h: Heap)
    requires Inv(h) && EndHoleAbuts(h)
    ensures forall x :: x in h.sizes && EndHole(h) <= x ==> x == EndHole(h)
    ensures h.holes <= h.sizes.Keys
  {
    hide Coalesced, Indexed, EndHole, EndHoleAbuts;
    EndHoleBounds(h);
  }

  /** Replacing a last chunk, or appending one, is a splice. */
  lemma SpliceLast(c: Chunks, holes: set<int>, a: int, end: int, size: int)
    requires a < end && holes <= c.Keys && forall x :: x in c && a <= x ==> x == a
    ensures c[a := size] == Splice(c, a, end, map[a := size])
    ensures holes + {a} == SpliceHoles(holes, a, end, {a})
  {
  }

  lemma EndKept(m: seq<u8>, m': seq<u8>, h: Heap, end: int)
    requires Inv(h) && EndHoleAbuts(h) && SameOutside(m, m', EndHole(h), end)
    ensures Kept(m, m', h, end, -1)
  {
    hide Coalesced, Indexed, EndHole, EndHoleAbuts;
    EndHoleBounds(h);
  }

  lemma FirstHeap(m: seq<u8>, start: int, end: int, max: int)
    requires |m| == TWO32 && PAGE <= start && start + TAGS <= end <= max <= 0xFFFFF000
    requires HeaderAt(m, start, end - start, true)
    ensures Inv(FirstHole(start, end, max)) && Encodes(m, FirstHole(start, end, max))
  {
    OneChunk(start, end - start);
  }

  /** The page rounding of create_heap leaves a page-aligned address alone. */
  lemma FirstAddress(start: int)
    requires start % PAGE == 0
    ensures Rounded(start + 4 * HEAP_INDEX_SIZE) == start + 4 * HEAP_INDEX_SIZE
  {
  }

  /** Enlarges the tags of a hole: the size in its header and a footer at its new end. */
  method ExtendTags(ram: array<u8>, a: int, size: int, added: int)
    requires ram.Length == TWO32 && TAGS <= size && 0 <= added && 0 <= a && a + size + added < TWO32
    requires HeaderAt(ram[..], a, size, true)
    modifies ram
    ensures TagsAt(ram[..], a, size + added, true) && SameOutside(old(ram[..]), ram[..], a, a + size + added)
  {
    WrapSmall(size + added);
    WrapSmall(a + size + added - FOOTER);
    var newSize := Wrap(size + added);
    WriteWord(ram, a + 8, newSize);
    WriteFooter(ram, Wrap(a + newSize - FOOTER), a);
  }

  // ---------------------------------------------------------------- the steps of free

  /** The words that free inspects on the two outer sides of the heap do not look like tags. */
  ghost predicate Guarded(m: seq<u8>, h: Heap) {
    && |m| == TWO32
    && 8 <= h.start <= h.end && h.end + 4 <= TWO32
    && Word(m, h.start - 8) != HEAP_MAGIC && Word(m, h.end) != HEAP_MAGIC
  }

  /** The chunk on the left of a block. */
  lemma LeftChunk(h: Heap, a: int)
    requires Inv(h) && BlockAt(h, a)
    ensures a == h.start ==> !MergesLeft(h, a)
    ensures a != h.start ==> LeftOf(h.sizes, a).Some? && !OneHole(h)
    ensures LeftOf(h.sizes, a).Some? ==> var b := LeftOf(h.sizes, a).value;
      PAGE <= b && b + h.sizes[b] == a && TAGS <= h.sizes[b] && (MergesLeft(h, a) <==> b in h.holes)
    ensures MergesLeft(h, a) ==> MergedLo(h, a) == LeftOf(h.sizes, a).value
  {
    hide Coalesced, Indexed;
    if a != h.start {
      var b := Previous(h.sizes, h.start, h.end, a);
    }
  }

  lemma WordFrame(m: seq<u8>, m': seq<u8>, lo: int, hi: int, a: int)
    requires |m| == TWO32 && SameOutside(m, m', lo, hi) && 0 <= a && (a + 4 <= lo || hi <= a) && a + 4 <= TWO32
    ensures Word(m', a) == Word(m, a)
  {
  }

  /** The test for a hole on the left, made after the flag of the block at a is set. */
  lemma LeftTest(m: seq<u8>, m': seq<u8>, h: Heap, a: int)
    requires Inv(h) && Encodes(m, h) && BlockAt(h, a) && Guarded(m, h) && SameOutside(m, m', a + 4, a + 5)
    requires PAGE <= a < TWO32 - 16
    ensures Word(m', a - 8) == HEAP_MAGIC ==> Word(m', a - 4) + HEADER <= TWO32
    ensures Word(m', a - 8) == HEAP_MAGIC && m'[Word(m', a - 4) + 4] == 1 <==> MergesLeft(h, a)
    ensures MergesLeft(h, a) ==> Word(m', a - 4) == MergedLo(h, a)
  {
    hide Inv, MergesLeft, MergedLo, OneHole, Word, SameOutside, BlockAt;
    LeftChunk(h, a);
    WordFrame(m, m', a + 4, a + 5, a - 8);
    WordFrame(m, m', a + 4, a + 5, a - 4);
    if a != h.start {
      var b := LeftOf(h.sizes, a).value;
      TagsFrame(m, m', a + 4, a + 5, b, h.sizes[b], b in h.holes);
      assert FooterAt(m, b, h.sizes[b]) && HeaderAt(m, b, h.sizes[b], b in h.holes);
    }
  }

  /** The test for a hole on the right, after the left side is dealt with. */
  lemma RightTest(m: seq<u8>, m': seq<u8>, h: Heap, a: int)
    requires Inv(h) && Encodes(m, h) && BlockAt(h, a) && Guarded(m, h)
    requires SameOutside(m, m', MergedLo(h, a), a + h.sizes[a])
    ensures var right := a + h.sizes[a];
      && 0 <= right && right + HEADER <= TWO32
      && (Word(m', right) == HEAP_MAGIC && m'[right + 4] != 0 <==> MergesRight(h, a))
      && (MergesRight(h, a) ==>
            TagsAt(m', right, SizeOf(h.sizes, right), true) && MergedHi(h, a) == right + SizeOf(h.sizes, right))
      && (!MergesRight(h, a) ==> MergedHi(h, a) == right)
  {
    hide Coalesced, Indexed, MergedLo, LeftOf, MergesLeft, Word, SameOutside;
    var right := a + h.sizes[a];
    MergedBounds(h, a);
    WordFrame(m, m', MergedLo(h, a), right, right);
    if right in h.sizes {
      assert !OneHole(h);
      assert HeaderAt(m, right, h.sizes[right], right in h.holes) && FooterAt(m, right, h.sizes[right]);
      TagsFrame(m, m', MergedLo(h, a), right, right, h.sizes[right], right in h.holes);
    }
  }

  /** Gives the block at a to the hole that ends there. */
  method JoinLeft(ram: array<u8>, left: int, a: int, size: int)
    requires ram.Length == TWO32 && 0 <= left && left + TAGS <= a && TAGS <= size && a + size < TWO32
    requires HeaderAt(ram[..], left, a - left, true) && HeaderAt(ram[..], a, size, true) && FooterAt(ram[..], a, size)
    modifies ram
    ensures TagsAt(ram[..], left, a + size - left, true) && SameOutside(old(ram[..]), ram[..], left, a + size)
  {
    hide Word, SameOutside;
    ghost var m0 := ram[..];
    var cacheSize := ReadWord(ram, a + 8);
    WriteWord(ram, a + size - FOOTER + 4, left);
    ghost var m1 := ram[..];
    WordFrame(m0, m1, a + size - 4, a + size, left);
    WordFrame(m0, m1, a + size - 4, a + size, left + 8);
    WordFrame(m0, m1, a + size - 4, a + size, a + size - FOOTER);
    ByteFrame(m0, m1, a + size - 4, a + size, left + 4);
    var leftSize := ReadWord(ram, left + 8);
    WrapSmall(leftSize + cacheSize);
    WriteWord(ram, left + 8, Wrap(leftSize + cacheSize));
    ghost var m2 := ram[..];
    WordFrame(m1, m2, left + 8, left + 12, left);
    WordFrame(m1, m2, left + 8, left + 12, a + size - FOOTER);
    WordFrame(m1, m2, left + 8, left + 12, a + size - 4);
    ByteFrame(m1, m2, left + 8, left + 12, left + 4);
    SameWithin(m0, m0, m1, left, a + size, a + size - 4, a + size);
    SameWithin(m0, m1, m2, left, a + size, left + 8, left + 12);
  }

  lemma ByteFrame(m: seq<u8>, m': seq<u8>, lo: int, hi: int, i: int)
    requires SameOutside(m, m', lo, hi) && 0 <= i < |m| && !(lo <= i < hi)
    ensures |m'| == |m| && m'[i] == m[i]
  {
  }

  /** Marks the block at a as a hole and merges it with a hole on its left. */
  method MergeLeft(ram: array<u8>, a: int, size: int, ghost h: Heap)
    returns (header: int, doAdd: bool)
    requires ram.Length == TWO32 && Inv(h) && Encodes(ram[..], h) && BlockAt(h, a) && Guarded(ram[..], h)
    requires size == h.sizes[a]
    modifies ram
    ensures header == MergedLo(h, a) && doAdd == !MergesLeft(h, a)
    ensures TagsAt(ram[..], header, a + size - header, true)
    ensures SameOutside(old(ram[..]), ram[..], header, a + size)
  {
    hide Inv, Encodes, Guarded, MergesLeft, LeftOf, SameOutside, Word;
    ghost var m := ram[..];
    BlockTags(m, h, a);
    SetHoleFlag(ram, a, size);
    ghost var m1 := ram[..];
    SameWithin(m, m, m1, a, a + size, a + 4, a + 5);
    LeftTest(m, m1, h, a);
    var magic := ReadWord(ram, a - 8);
    header, doAdd := a, true;
    if magic == HEAP_MAGIC {
      var left := ReadWord(ram, a - 4);
      if ram[left + 4] == 1 {
        LeftHeader(m, m1, h, a);
        header, doAdd := left, false;
        SameWithin(m, m, m1, left, a + size, a, a + size);
        JoinLeft(ram, left, a, size);
        SameWithin(m, m1, ram[..], left, a + size, left, a + size);
      }
    }
  }

  /**
   * Gives the hole on the right, to which the one at a extends, to it; rewrite tells whether its footer is redirected.
   */
  method JoinRight(ram: array<u8>, a: int, right: int, rightSize: int, rewrite: bool)
    requires ram.Length == TWO32 && a + TAGS <= right && TAGS <= rightSize && 0 <= a && right + rightSize < TWO32
    requires TagsAt(ram[..], a, right - a, true) && TagsAt(ram[..], right, rightSize, true)
    modifies ram
    ensures HeaderAt(ram[..], a, right + rightSize - a, true)
    ensures SameOutside(old(ram[..]), ram[..], a, right + rightSize)
    ensures FooterAt(ram[..], a, right + rightSize - a) <==> rewrite
  {
    hide Word, SameOutside;
    ghost var m0 := ram[..];
    var size := ReadWord(ram, a + 8);
    WrapSmall(size + rightSize);
    WriteWord(ram, a + 8, Wrap(size + rightSize));
    ghost var m1 := ram[..];
    WordFrame(m0, m1, a + 8, a + 12, a);
    ByteFrame(m0, m1, a + 8, a + 12, a + 4);
    WordFrame(m0, m1, a + 8, a + 12, right + rightSize - FOOTER);
    WordFrame(m0, m1, a + 8, a + 12, right + rightSize - 4);
    SameWithin(m0, m0, m1, a, right + rightSize, a + 8, a + 12);
    if rewrite {
      var at := right + rightSize - FOOTER + 4;
      WriteWord(ram, at, a);
      ghost var m2 := ram[..];
      WordFrame(m1, m2, at, at + 4, a);
      WordFrame(m1, m2, at, at + 4, a + 8);
      WordFrame(m1, m2, at, at + 4, at - 4);
      ByteFrame(m1, m2, at, at + 4, a + 4);
      SameWithin(m0, m1, m2, a, right + rightSize, at, at + 4);
    }
  }

  /** Looks a header up in the index and removes it. */
  method RemoveFromIndex(index: OrderedArray<int>, header: int)
    requires index.Valid() && index.size < index.cells.Length && header in index.Contents()
    modifies index`size, index.cells
    ensures index.Valid() && index.size == old(index.size) - 1
    ensures index.Contents() == Without(old(index.Contents()), header)
  {
    hide RemoveAt;
    var i := 0;
    ghost var all := index.Contents();
    while i < index.size && index.cells[i] != header
      invariant 0 <= i <= index.size && PositionOf(all, header, 0) == PositionOf(all, header, i)
    {
      i := i + 1;
    }
    index.Remove(i);
  }

  /** Merges the hole at header, which ends where the chunk behind a starts, with a hole there. */
  method MergeRight(ram: array<u8>, index: OrderedArray<int>, a: int, header: int, size: int, rewrite: bool,
                    ghost h: Heap, ghost m: seq<u8>)
    returns (end: int)
    requires ram.Length == TWO32 && Inv(h) && Encodes(m, h) && BlockAt(h, a) && Guarded(m, h) && size == h.sizes[a]
    requires header == MergedLo(h, a) && SameOutside(m, ram[..], header, a + size)
    requires TagsAt(ram[..], header, a + size - header, true)
    requires index.Valid() && index.size < index.cells.Length && index.Contents() == h.index
    modifies ram, index`size, index.cells
    ensures end == MergedHi(h, a)
    ensures HeaderAt(ram[..], header, end - header, true) && SameOutside(m, ram[..], header, end)
    ensures FooterAt(ram[..], header, end - header) <==> rewrite || !MergesRight(h, a)
    ensures index.Valid() && index.size <= old(index.size)
    ensures index.Contents() == if MergesRight(h, a) then Without(h.index, a + size) else h.index
  {
    hide Inv, Encodes, Guarded, MergedLo, MergesLeft, MergedHi, MergesRight, Without, HeaderAt, FooterAt;
    BlockTags(m, h, a);
    MergedBounds(h, a);
    RightTest(m, ram[..], h, a);
    end := a + size;
    var magic := ReadWord(ram, end);
    if magic == HEAP_MAGIC && ram[end + 4] != 0 {
      var right := end;
      RightIndexed(h, a);
      var rightSize := HeaderSize(ram, right, SizeOf(h.sizes, right));
      JoinRight(ram, header, right, rightSize, rewrite);
      end := right + rightSize;
      RemoveFromIndex(index, right);
    }
  }

  /** Reads the size of the block that is freed; its tags pass the two sanity checks. */
  method BlockSizeAt(ram: array<u8>, a: int, ghost size: int) returns (r: int)
    requires ram.Length == TWO32 && TagsAt(ram[..], a, size, false)
    ensures r == size
  {
    r := ReadWord(ram, a + 8);
    var headerMagic := ReadWord(ram, a);
    var footerMagic := ReadWord(ram, a + r - FOOTER);
    assert headerMagic == HEAP_MAGIC && footerMagic == HEAP_MAGIC;
  }

  method HeaderSize(ram: array<u8>, a: int, ghost size: int) returns (r: int)
    requires ram.Length == TWO32 && HeaderAt(ram[..], a, size, true)
    ensures r == size
  {
    r := ReadWord(ram, a + 8);
  }

  lemma RightIndexed(h: Heap, a: int)
    requires Inv(h) && BlockAt(h, a) && MergesRight(h, a)
    ensures var right := a + h.sizes[a];
      right in h.index && TAGS <= SizeOf(h.sizes, right) && right + SizeOf(h.sizes, right) <= h.end
    ensures 0 <= MergedLo(h, a) <= a && TAGS <= h.sizes[a] && h.end < TWO32
  {
    hide Coalesced, MergedLo, MergesLeft, LeftOf;
    MergedBounds(h, a);
  }

  /** Shortens a hole: the size in its header and a footer at its new end. */
  method ShrinkTags(ram: array<u8>, a: int, size: int, newSize: int)
    requires ram.Length == TWO32 && 0 <= a && TAGS <= newSize <= size && a + size < TWO32
    requires HeaderAt(ram[..], a, size, true)
    modifies ram
    ensures TagsAt(ram[..], a, newSize, true) && SameOutside(old(ram[..]), ram[..], a, a + size)
  {
    WriteWord(ram, a + 8, newSize);
    WriteFooter(ram, a + newSize - FOOTER, a);
  }

  /** free changes the chunks between the bounds of the merged hole only. */
  lemma FreedMemory(m: seq<u8>, m': seq<u8>, h: Heap, a: int)
    requires Inv(h) && Encodes(m, h) && BlockAt(h, a) && FreeReady(h, a)
    requires SameOutside(m, m', MergedLo(h, a), MergedHi(h, a)) && HeaderAt(m', MergedLo(h, a), FreedSize(h, a), true)
    ensures HeadersIn(m', Freed(h, a)) && Kept(m, m', h, h.end, a)
    ensures FooterAt(m', MergedLo(h, a), FreedSize(h, a)) ==> Encodes(m', Freed(h, a))
    ensures !FooterAt(m', MergedLo(h, a), FreedSize(h, a)) && MergedHi(h, a) != h.end ==> !Encodes(m', Freed(h, a))
  {
    hide Inv, Encodes, HeadersIn, MergedLo, MergedHi, FreedSize, FreedLength, Splice, SpliceHoles, SameOutside;
    hide FreeReady;
    hide HeaderAt, FooterAt, IndexInsert, Kept;
    MergedBounds(h, a);
    AtLeastTags(h, a);
    var lo, hi, size := MergedLo(h, a), MergedHi(h, a), FreedSize(h, a);
    ReadyFits(h, a);
    FreedAmounts(h, a);
    var d := map[lo := size];
    HeadersSplice(m, m', h, Freed(h, a), lo, hi, d, {lo});
    if FooterAt(m', lo, size) {
      EncodesSplice(m, m', h, Freed(h, a), lo, hi, d, {lo});
    } else if hi != h.end {
      NotEncoded(m', h, a);
    }
    FreedKept(m, m', h, a);
  }

  lemma NotEncoded(m': seq<u8>, h: Heap, a: int)
    requires Inv(h) && BlockAt(h, a) && |m'| == TWO32 && !FooterAt(m', MergedLo(h, a), FreedSize(h, a))
    requires MergedHi(h, a) != h.end
    ensures !Encodes(m', Freed(h, a))
  {
    hide Tiles, Coalesced, Indexed, MergedLo, MergedHi, FreedSize, FreedLength, HeadersIn, FooterAt, IndexInsert;
    MergedBounds(h, a);
    AtLeastTags(h, a);
    assert MergedHi(h, a) in Freed(h, a).sizes && MergedLo(h, a) in Freed(h, a).sizes;
  }

  lemma FreedKept(m: seq<u8>, m': seq<u8>, h: Heap, a: int)
    requires Inv(h) && BlockAt(h, a) && SameOutside(m, m', MergedLo(h, a), MergedHi(h, a))
    ensures Kept(m, m', h, h.end, a)
  {
    hide Coalesced, Indexed, MergedLo, MergedHi, MergesLeft, MergesRight;
    MergedBounds(h, a);
    forall b | BlockAt(h, b) && b != a ensures b + h.sizes[b] <= MergedLo(h, a) || MergedHi(h, a) <= b {
      OtherBlock(h, a, b);
      BeforeOrBehind(h.sizes, h.start, h.end, MergedLo(h, a), MergedHi(h, a), b);
    }
  }

  method SetHoleFlag(ram: array<u8>, a: int, size: int)
    requires ram.Length == TWO32 && TagsAt(ram[..], a, size, false) && TAGS <= size
    modifies ram
    ensures TagsAt(ram[..], a, size, true) && SameOutside(old(ram[..]), ram[..], a + 4, a + 5)
  {
    ram[a + 4] := 1;
  }

  lemma BlockTags(m: seq<u8>, h: Heap, a: int)
    requires Inv(h) && Encodes(m, h) && BlockAt(h, a)
    ensures TagsAt(m, a, h.sizes[a], false) && TAGS <= h.sizes[a] && PAGE <= a && a + h.sizes[a] <= h.end <= 0xFFFFF000
    ensures !OneHole(h)
  {
    assert !OneHole(h);
  }

  lemma LeftHeader(m: seq<u8>, m': seq<u8>, h: Heap, a: int)
    requires Inv(h) && Encodes(m, h) && BlockAt(h, a) && MergesLeft(h, a) && SameOutside(m, m', a + 4, a + 5)
    ensures var lo := MergedLo(h, a);
      0 <= lo && lo + TAGS <= a && HeaderAt(m', lo, a - lo, true)
  {
    hide Inv, MergedLo, MergesLeft, OneHole;
    LeftChunk(h, a);
    var lo := LeftOf(h.sizes, a).value;
    assert HeaderAt(m, lo, h.sizes[lo], true);
  }

  // ---------------------------------------------------------------- facts for the two operations

  /** The hole that the search finds covers the request. */
  lemma ChosenHole(h: Heap, n: int, align: bool)
    requires Inv(h) && AllocReady(h, n, align)
    ensures var k := Search(h, n, align, 0);
      k < |h.index| ==> n <= SizeOf(h.sizes, h.index[k])
  {
    hide Inv;
  }

  lemma KeptTransitive(m: seq<u8>, m1: seq<u8>, m2: seq<u8>, h: Heap, g: Heap, end: int)
    requires Kept(m, m1, h, g.end, -1) && Kept(m1, m2, g, end, -1) && GrownFrom(h, g, g.end - h.end) && g.end <= end
    ensures Kept(m, m2, h, end, -1)
  {
  }

  lemma RightBounds(h: Heap, a: int)
    requires Inv(h) && BlockAt(h, a)
    ensures 0 <= h.start <= MergedLo(h, a) && MergedLo(h, a) + TAGS <= MergedHi(h, a) <= h.end < TWO32
  {
    hide MergedLo, MergedHi, MergesLeft, LeftOf, MergesRight, Coalesced, Indexed;
    MergedBounds(h, a);
    AtLeastTags(h, a);
  }

  lemma LengthenedPlace(h: Heap, end: int, added: int)
    ensures var g := Lengthened(h, end, added);
      g.start == h.start && g.end == end && g.max == h.max
  {
  }

  lemma InsertedIntoEmpty(s: seq<int>, x: int, less: (int, int) -> bool, less': (int, int) -> bool)
    requires s == []
    ensures Inserted(s, x, less) == [x] == Inserted(s, x, less')
  {
  }

  lemma IndexPositive(h: Heap)
    requires Inv(h)
    ensures forall a :: a in h.index ==> a > 0
  {
  }

  lemma IndexTags(m: seq<u8>, h: Heap, a: int)
    requires Inv(h) && Encodes(m, h) && a in h.holes
    ensures HeaderAt(m, a, SizeOf(h.sizes, a), true) && a + SizeOf(h.sizes, a) <= h.end && TAGS <= SizeOf(h.sizes, a)
  {
  }
}
