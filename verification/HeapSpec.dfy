/** What alloc and free of kheap.c do to the chunks of the heap and to the index of its holes. */
module HeapSpec {
  import opened Machine
  import opened OrderedArrays
  import opened Tiling

  const PAGE: int := 0x1000
  const HEAP_MIN_SIZE: int := 0x70000
  const HEAP_INDEX_SIZE: int := 0x20000

  /**
   * The heap as its headers describe it: sizes has the size of every chunk, holes the addresses of those
   * that are holes (the others are blocks), and index the headers of holes that the sorted array lists.
   */
  datatype Heap = Heap(start: int, end: int, max: int, sizes: Chunks, holes: set<int>, index: seq<int>)

  predicate BlockAt(h: Heap, a: int) {
    a in h.sizes && a !in h.holes
  }

  /** The index lists the header of every hole once and nothing else. */
  ghost predicate Indexed(holes: set<int>, index: seq<int>) {
    && (forall a :: a in index <==> a in holes)
    && Distinct(index)
  }

  ghost predicate Placed(h: Heap) {
    PAGE <= h.start < h.end <= h.max <= 0xFFFFF000
  }

  ghost predicate Inv(h: Heap) {
    && Placed(h)
    && h.holes <= h.sizes.Keys
    && Tiles(h.sizes, h.start, h.end)
    && Coalesced(h.sizes, h.holes)
    && Indexed(h.holes, h.index)
  }

  // ---------------------------------------------------------------- the index

  function SizeOf(c: Chunks, a: int): int {
    if a in c then c[a] else 0
  }

  /** header_t_less_than on the given headers. */
  function SizeLess(c: Chunks): (int, int) -> bool {
    (a: int, b: int) => SizeOf(c, a) < SizeOf(c, b)
  }

  function IndexInsert(index: seq<int>, a: int, c: Chunks): seq<int> {
    Inserted(index, a, SizeLess(c))
  }

  /** The heap that consists of one hole. */
  function FirstHole(start: int, end: int, max: int): Heap {
    Heap(start, end, max, map[start := end - start], {start}, [start])
  }

  // ---------------------------------------------------------------- fit search

  /**
   * The test of find_smallest_hole. The mask expression of the source selects the lowest bit of the
   * payload address, so only odd payload addresses are moved up to a page.
   */
  predicate Fits(a: int, holeSize: int, n: int, align: bool) {
    if align then
      var offset := if (a + HEADER) % 2 == 1 then PAGE - (a + HEADER) % PAGE else 0;
      Signed(Wrap(holeSize)) - offset >= Signed(Wrap(n))
    else
      holeSize >= n
  }

  /** The first entry of the index, from k on, that fits; |index| if there is none. */
  function Search(h: Heap, n: int, align: bool, k: nat): (r: nat)
    requires k <= |h.index|
    ensures k <= r <= |h.index|
    ensures forall i :: k <= i < r ==> !Fits(h.index[i], SizeOf(h.sizes, h.index[i]), n, align)
    ensures r < |h.index| ==> Fits(h.index[r], SizeOf(h.sizes, h.index[r]), n, align)
    decreases |h.index| - k
  {
    if k == |h.index| || Fits(h.index[k], SizeOf(h.sizes, h.index[k]), n, align) then k
    else Search(h, n, align, k + 1)
  }

  // ---------------------------------------------------------------- alloc from a hole

  /** The size a block takes when n bytes are wanted from a hole: a rest too small for a chunk goes with it. */
  function BlockSize(holeSize: int, n: int): int {
    if Wrap(holeSize - n) < TAGS then holeSize else n
  }

  /** The size of the hole left in front of a block whose payload starts on the next page. */
  function FrontSize(a: int): int {
    Wrap(PAGE - a % PAGE - HEADER)
  }

  /** The header of the block that alloc makes out of the hole at a. */
  function BlockOf(a: int, align: bool): int {
    if align && a >= PAGE then Wrap(a + PAGE - a % PAGE - HEADER) else a
  }

  /** What alloc leaves behind the block. */
  function RestOf(a: int, holeSize: int, n: int, align: bool): int {
    Wrap(holeSize - (if align && a >= PAGE then FrontSize(a) else 0) - BlockSize(holeSize, n))
  }

  /** The chunks that alloc makes out of the hole at a. */
  function Pieces(a: int, holeSize: int, n: int, align: bool): Chunks {
    var block, size, rest := BlockOf(a, align), BlockSize(holeSize, n), RestOf(a, holeSize, n, align);
    var made: Chunks := if align && a >= PAGE then map[a := FrontSize(a)][block := size] else map[a := size];
    if rest > 0 then made[Wrap(block + size) := rest] else made
  }

  /** Those of them that are holes. */
  function PieceHoles(a: int, holeSize: int, n: int, align: bool): set<int> {
    NewHoles({a}, a, BlockOf(a, align) != a, RestOf(a, holeSize, n, align),
      Wrap(BlockOf(a, align) + BlockSize(holeSize, n)))
  }

  /** The holes when the one at a goes, unless it is kept, and one is made at the address at of a rest, if any. */
  function NewHoles(holes: set<int>, a: int, keep: bool, rest: int, at: int): set<int> {
    var kept := if keep then holes else holes - {a};
    if rest > 0 then kept + {at} else kept
  }

  function NewIndex(index: seq<int>, k: nat, keep: bool, rest: int, at: int, sizes: Chunks): seq<int>
    requires k < |index|
  {
    var kept := if keep then index else RemoveAt(index, k);
    if rest > 0 then IndexInsert(kept, at, sizes) else kept
  }

  /** alloc once the hole at position k of the index is chosen for n bytes, tags included. */
  function Carved(h: Heap, k: nat, n: int, align: bool): Heap
    requires k < |h.index|
  {
    var a := h.index[k];
    var holeSize := SizeOf(h.sizes, a);
    var block, rest := BlockOf(a, align), RestOf(a, holeSize, n, align);
    var at := Wrap(block + BlockSize(holeSize, n));
    var sizes := h.sizes + Pieces(a, holeSize, n, align);
    h.(sizes := sizes,
       holes := NewHoles(h.holes, a, block != a, rest, at),
       index := NewIndex(h.index, k, align && a >= PAGE, rest, at, sizes))
  }

  // ---------------------------------------------------------------- growth

  /** The page rounding of expand, which the mask expression of the source applies to odd sizes only. */
  function Rounded(newSize: int): int {
    if newSize % 2 == 1 then Wrap(newSize - newSize % PAGE + PAGE) else newSize
  }

  function Length(h: Heap): int {
    h.end - h.start
  }

  /** The two assertions of expand, in 32-bit arithmetic. */
  predicate ExpandAsserts(h: Heap, n: int) {
    && Wrap(Length(h) + n) > Length(h)
    && Wrap(h.start + Rounded(Wrap(Length(h) + n))) <= h.max
  }

  /** The position in the index of the header with the highest address, -1 if the index is empty. */
  function Endmost(index: seq<int>): (r: int)
    ensures -1 <= r < |index|
    ensures r == -1 <==> index == []
    ensures forall i :: 0 <= i < |index| ==> index[i] <= index[r]
  {
    if index == [] then -1
    else
      var r := Endmost(index[..|index| - 1]);
      if r == -1 || index[|index| - 1] > index[r] then |index| - 1 else r
  }

  /** The hole that takes the added bytes. */
  function EndHole(h: Heap): int {
    var e := Endmost(h.index);
    if e == -1 then h.end else h.index[e]
  }

  /** The heap with a new end and with the added bytes given to its endmost hole, or to a new one. */
  function Lengthened(h: Heap, end: int, added: int): Heap {
    var a := EndHole(h);
    if h.index == [] then
      var sizes := h.sizes[a := added];
      h.(end := end, sizes := sizes, holes := h.holes + {a}, index := IndexInsert(h.index, a, sizes))
    else
      h.(end := end, sizes := h.sizes[a := Wrap(SizeOf(h.sizes, a) + added)])
  }

  /** The heap after expand and the adjustment of its endmost hole. */
  function Grown(h: Heap, n: int): Heap {
    var end := Wrap(h.start + Rounded(Wrap(Length(h) + n)));
    Lengthened(h, end, Wrap(end - h.start - Length(h)))
  }

  /** The new end, computed without wrapping, is a 32-bit address. */
  predicate GrowthInRange(h: Heap, n: int) {
    var length := Length(h) + n;
    h.start + length + (if length % 2 == 1 then PAGE - length % PAGE else 0) < TWO32
  }

  /** The endmost hole, if there is a hole, reaches the end of the heap. */
  predicate EndHoleAbuts(h: Heap) {
    h.index == [] || EndHole(h) + SizeOf(h.sizes, EndHole(h)) == h.end
  }

  // ---------------------------------------------------------------- alloc

  /** The conditions under which carving a page-aligned block out of a hole keeps the tiling. */
  predicate AlignedFits(a: int, holeSize: int, n: int) {
    && a % PAGE <= 0xFE0
    && FrontSize(a) + n <= holeSize
    && (FrontSize(a) + n == holeSize || FrontSize(a) + n + TAGS <= holeSize)
  }

  /** alloc either stops at an assertion of expand, or changes the heap and returns a pointer. */
  datatype Outcome = Panic | Allocated(heap: Heap, block: int)

  /** Every hole that alloc carves and every growth on the way meets its condition. */
  ghost predicate AllocReady(h: Heap, n: int, align: bool)
    decreases TWO32 - h.end
  {
    var k := Search(h, n, align, 0);
    if k < |h.index| then
      align ==> AlignedFits(h.index[k], SizeOf(h.sizes, h.index[k]), n)
    else
      ExpandAsserts(h, n) ==>
        && GrowthInRange(h, n) && EndHoleAbuts(h)
        && h.end < Grown(h, n).end < TWO32 && AllocReady(Grown(h, n), n, align)
  }

  ghost function Alloc(h: Heap, n: int, align: bool): Outcome
    requires AllocReady(h, n, align)
    decreases TWO32 - h.end
  {
    var k := Search(h, n, align, 0);
    if k < |h.index| then Allocated(Carved(h, k, n, align), BlockOf(h.index[k], align))
    else if ExpandAsserts(h, n) then Alloc(Grown(h, n), n, align)
    else Panic
  }

  // ---------------------------------------------------------------- free

  /** The chunk that ends where a starts, if there is one. */
  ghost function LeftOf(c: Chunks, a: int): (r: Option<int>)
    ensures r.Some? ==> r.value in c && r.value + c[r.value] == a
    ensures r.None? ==> forall b :: b in c ==> b + c[b] != a
  {
    if b :| b in c && b + c[b] == a then Some(b) else None
  }

  ghost predicate MergesLeft(h: Heap, a: int) {
    LeftOf(h.sizes, a).Some? && LeftOf(h.sizes, a).value in h.holes
  }

  predicate MergesRight(h: Heap, a: int) {
    a + SizeOf(h.sizes, a) in h.holes
  }

  /** The bounds of the hole that freeing the block at a makes. */
  ghost function MergedLo(h: Heap, a: int): int {
    if MergesLeft(h, a) then LeftOf(h.sizes, a).value else a
  }

  function MergedHi(h: Heap, a: int): int {
    var right := a + SizeOf(h.sizes, a);
    if MergesRight(h, a) then right + SizeOf(h.sizes, right) else right
  }

  /** The result of contract: the mask of the source keeps one bit of the size only. */
  function Contracted(newSize: int): int {
    var rounded := if newSize / PAGE % 2 == 1 then 0x2000 else newSize;
    if rounded < HEAP_MIN_SIZE then HEAP_MIN_SIZE else rounded
  }

  /** The length of the heap after the block at a is freed. */
  ghost function FreedLength(h: Heap, a: int): int {
    if MergedHi(h, a) == h.end then Contracted(MergedLo(h, a) - h.start) else Length(h)
  }

  /** The size that the merged hole has in its header after the contraction. */
  ghost function FreedSize(h: Heap, a: int): int {
    var merged := MergedHi(h, a) - MergedLo(h, a);
    var left := Wrap(merged - (Length(h) - FreedLength(h, a)));
    if left > 0 then left else merged
  }

  /** free of the block at a, with the footer of a hole merged from the right rewritten. */
  ghost function Freed(h: Heap, a: int): Heap
    requires BlockAt(h, a)
  {
    var lo, hi := MergedLo(h, a), MergedHi(h, a);
    var sizes := Splice(h.sizes, lo, hi, map[lo := FreedSize(h, a)]);
    var kept := if MergesRight(h, a) then Without(h.index, a + SizeOf(h.sizes, a)) else h.index;
    h.(end := Wrap(h.start + FreedLength(h, a)), sizes := sizes, holes := SpliceHoles(h.holes, lo, hi, {lo}),
       index := if MergesLeft(h, a) then kept else IndexInsert(kept, lo, sizes))
  }

  /** The condition under which the contraction triggered by freeing the block at a keeps the tiling. */
  ghost predicate ContractFits(h: Heap, a: int) {
    MergedHi(h, a) == h.end ==>
      MergedLo(h, a) - h.start <= HEAP_MIN_SIZE - TAGS && h.start + HEAP_MIN_SIZE <= h.max
  }

  /** It does contract: the heap is not made longer by the pages that a shorter one lacks. */
  ghost predicate FreeReady(h: Heap, a: int) {
    ContractFits(h, a) && (MergedHi(h, a) == h.end ==> Length(h) >= HEAP_MIN_SIZE)
  }

  /**
   * Without the announced footer rewrite, the footer of a hole merged from the right keeps naming the old header.
   * It is overwritten only if the merged hole reaches the end of the heap.
   */
  predicate GoesStale(h: Heap, a: int) {
    MergesRight(h, a) && MergedHi(h, a) != h.end
  }
}
