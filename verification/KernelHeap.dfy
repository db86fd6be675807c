/** alloc and free of kheap.c on a byte memory, proved against HeapSpec. */
module KernelHeap {
  import opened Machine
  import opened OrderedArrays
  import opened Tiling
  import opened HeapSpec
  import opened HeapInvariant
  import opened HeapMemory
  import opened HeapSteps
  import opened HeapWrites
  import HeapOutcomes

  /** heap_t. The ghost fields describe the chunks whose tags are in memory. */
  class KHeap {
    const ram: array<u8>
    const index: OrderedArray<int>
    var startAddress: int
    var endAddress: int
    var maxAddress: int
    ghost var sizes: Chunks
    ghost var holes: set<int>

    /** create_heap: the space behind the index array becomes one hole, whose footer is not written. */
    constructor (memory: array<u8>, start: int, end: int, max: int)
      requires memory.Length == TWO32 && start % PAGE == 0 && end % PAGE == 0
      requires 0 <= start && start + 4 * HEAP_INDEX_SIZE < end <= max <= 0xFFFFF000
      modifies memory
      ensures Valid() && fresh(index) && fresh(index.cells) && ram == memory
      ensures State() == FirstHole(start + 4 * HEAP_INDEX_SIZE, end, max)
      ensures startAddress == start + 0x8_0000 && endAddress == end && maxAddress == max
      ensures sizes == map[start + 0x8_0000 := end - start - 0x8_0000] && holes == {start + 0x8_0000}
      ensures index.Contents() == [start + 0x8_0000]
      ensures var first := start + 4 * HEAP_INDEX_SIZE;
        SameOutside(old(memory[..]), memory[..], first, first + HEADER)
    {
      hide Inv, Encodes, SameOutside, HeaderAt, HeaderLess, Rounded, Inserted;
      FirstAddress(start);
      var first := Rounded(start + 4 * HEAP_INDEX_SIZE);
      ram := memory;
      startAddress, endAddress, maxAddress := first, end, max;
      sizes, holes := map[first := end - first], {first};
      var a := new OrderedArray<int>(HEAP_INDEX_SIZE);
      index := a;
      new;
      WriteHeader(ram, startAddress, endAddress - startAddress, true);
      FirstHeap(ram[..], startAddress, endAddress, maxAddress);
      InsertedIntoEmpty(index.Contents(), startAddress, HeaderLess(ram[..]), HeaderLess(ram[..]));
      index.Insert(startAddress, HeaderLess(ram[..]));
    }

    ghost function State(): Heap
      reads this, index, index.cells
      requires index.Valid()
    {
      Heap(startAddress, endAddress, maxAddress, sizes, holes, index.Contents())
    }

    ghost predicate Valid()
      reads this, ram, index, index.cells
    {
      && ram.Length == TWO32
      && index.Valid() && index.cells.Length == HEAP_INDEX_SIZE
      && Inv(State())
      && Encodes(ram[..], State())
    }

    lemma IndexHeaders()
      requires Valid()
      ensures forall b :: b in index.Contents() ==>
        b in sizes && 0 <= b && b + sizes[b] < TWO32 && TAGS <= sizes[b] && HeaderAt(ram[..], b, sizes[b], true)
    {
    }

    /** Reads the size field of an indexed header. */
    method HoleSize(header: int) returns (size: int)
      requires Valid() && header in index.Contents()
      ensures size == SizeOf(sizes, header) && 0 <= size < TWO32
    {
      IndexHeaders();
      size := ReadWord(ram, header + 8);
    }

    /** The position in the index of the first hole that fits, -1 if there is none. */
    method FindSmallestHole(size: int, align: bool) returns (r: int)
      requires Valid() && 0 <= size < TWO32
      ensures var k := Search(State(), size, align, 0);
        r == if k < |State().index| then k else -1
    {
      hide Valid, Inv, Encodes, Signed, Fits, Wrap, SizeOf;
      assert index.Valid() by { ValidIndex(); }
      var i := 0;
      while i < index.size
        invariant i <= index.size && Search(State(), size, align, 0) == Search(State(), size, align, i)
      {
        var header := index.Lookup(i);
        var holeSize := HoleSize(header);
        FitsRead(header, holeSize, size, align);
        if align {
          var offset := if (header + HEADER) % 2 == 1 then PAGE - (header + HEADER) % PAGE else 0;
          if Signed(holeSize) - offset >= Signed(size) {
            break;
          }
        } else if holeSize >= size {
          break;
        }
        i := i + 1;
      }
      if i == index.size {
        return -1;
      } else {
        return i;
      }
    }

    lemma ValidIndex()
      requires Valid()
      ensures index.Valid() && index.cells.Length == HEAP_INDEX_SIZE
    {
    }

    /** alloc once find_smallest_hole has chosen a hole. */
    method Carve(k: nat, size: int, align: bool) returns (block: int)
      requires Valid() && k < index.size < index.cells.Length
      requires 0 <= size && size + TAGS <= SizeOf(sizes, State().index[k])
      requires align ==> AlignedFits(State().index[k], SizeOf(sizes, State().index[k]), size + TAGS)
      modifies ram, this`sizes, this`holes, index`size, index.cells
      ensures Valid() && State() == Carved(old(State()), k, size + TAGS, align)
      ensures block == BlockOf(old(State()).index[k], align)
      ensures Kept(old(ram[..]), ram[..], old(State()), endAddress, -1)
    {
      hide Inv, Tiles, Coalesced, Indexed, Pieces, PieceHoles, TagsAt, SameOutside, Kept, Encodes, AlignedFits, RestOf;
      hide IndexInsert, RemoveAt, BlockSize, BlockOf, NewHoles, TagsOf, Wrap, Carved;
      ghost var h, m := State(), ram[..];
      ghost var n := size + TAGS;
      CarvedFields(h, k, n, align);
      PlainBlock(h.index[k], align);
      HoleBounds(h, k);
      PlacedBounds(h);
      var a := index.Lookup(k);
      var holeSize := HoleSize(a);
      var at, rest;
      if align && a >= PAGE {
        block, at, rest := WriteAligned(ram, a, holeSize, size, endAddress);
      } else {
        block := a;
        at, rest := WritePlain(ram, a, holeSize, size, endAddress);
        index.Remove(k);
      }
      ghost var g := Carved(h, k, n, align);
      ghost var m' := ram[..];
      CarvedMemory(m, m', h, k, n, align);
      CarvedValid(h, k, n, align);
      if rest > 0 {
        InsertByHeaders(m', g, index.Contents(), at);
        index.Insert(at, HeaderLess(ram[..]));
      }
      sizes, holes := g.sizes, g.holes;
      assert ram[..] == m' && State() == g;
    }

    /** expand, without the mapping of the new pages; false if an assertion of it fails. */
    method Expand(newSize: int) returns (ok: bool)
      requires 0 <= newSize < TWO32
      modifies this`endAddress
      ensures ok == (newSize > old(endAddress) - startAddress && Wrap(startAddress + Rounded(newSize)) <= maxAddress)
      ensures endAddress == if ok then Wrap(startAddress + Rounded(newSize)) else old(endAddress)
    {
      if newSize <= endAddress - startAddress {
        return false;
      }
      var size := newSize;
      if size % 2 == 1 {
        size := Wrap(size - size % PAGE + PAGE);
      }
      if Wrap(startAddress + size) > maxAddress {
        return false;
      }
      endAddress := Wrap(startAddress + size);
      return true;
    }

    /** The position of the highest header of the index, -1 if there is none. */
    method FindEndmost() returns (idx: int)
      requires index.Valid() && forall a :: a in index.Contents() ==> a > 0
      ensures idx == Endmost(index.Contents())
    {
      var i, value := 0, 0;
      idx := -1;
      ghost var all := index.Contents();
      while i < index.size
        invariant 0 <= i <= index.size && idx == Endmost(all[..i])
        invariant value == if idx == -1 then 0 else all[idx]
      {
        var tmp := index.Lookup(i);
        assert all[..i + 1][..i] == all[..i] && tmp in all;
        if tmp > value {
          value, idx := tmp, i;
        }
        i := i + 1;
      }
      assert all[..i] == all;
    }

    /** The end hole takes the bytes that expand added. */
    method GiveToEndHole(oldEnd: int, added: int, ghost h: Heap)
      requires ram.Length == TWO32 && index.Valid() && index.size < index.cells.Length == HEAP_INDEX_SIZE
      requires State() == h.(end := oldEnd + added) && h.end == oldEnd && Inv(h) && Encodes(ram[..], h)
      requires EndHoleAbuts(h) && TAGS <= added && oldEnd + added <= h.max
      modifies ram, index`size, index.cells
      ensures index.Valid() && index.size <= index.cells.Length && (h.index == [] ==> index.size == 1)
      ensures h.index != [] ==> index.size == old(index.size)
      ensures index.Contents() == Lengthened(h, oldEnd + added, added).index
      ensures SameOutside(old(ram[..]), ram[..], EndHole(h), oldEnd + added)
      ensures TagsAt(ram[..], EndHole(h), SizeOf(h.sizes, EndHole(h)) + added, true)
    {
      hide Inv, Tiles, Coalesced, Indexed, TagsAt, SameOutside, Encodes, EndHoleAbuts, Inserted;
      PlacedBounds(h);
      EndHoleBounds(h);
      IndexPositive(h);
      var idx := FindEndmost();
      if idx == -1 {
        WriteTags(ram, oldEnd, added, true, oldEnd + added - FOOTER);
        InsertedIntoEmpty(h.index, oldEnd, HeaderLess(ram[..]), SizeLess(h.sizes[oldEnd := added]));
        index.Insert(oldEnd, HeaderLess(ram[..]));
      } else {
        var header := index.Lookup(idx);
        IndexTags(ram[..], h, header);
        var size := ReadWord(ram, header + 8);
        ExtendTags(ram, header, size, added);
      }
    }

    /** The growth that alloc starts when no hole fits; false if an assertion of expand fails. */
    method Grow(newSize: int) returns (ok: bool)
      requires Valid() && index.size < index.cells.Length && TAGS <= newSize < TWO32
      requires ExpandAsserts(State(), newSize) ==> GrowthInRange(State(), newSize) && EndHoleAbuts(State())
      modifies ram, this`endAddress, this`sizes, this`holes, index`size, index.cells
      ensures ok == ExpandAsserts(old(State()), newSize)
      ensures var length := old(endAddress) - startAddress + newSize;
        var end := startAddress + length + (if length % 2 == 1 then 0x1000 - length % 0x1000 else 0);
        && (ok <==> length < 0x1_0000_0000 && end <= maxAddress)
        && (ok ==> endAddress == end)
      ensures ok ==> Valid() && State() == Grown(old(State()), newSize)
      ensures ok ==> Kept(old(ram[..]), ram[..], old(State()), endAddress, -1)
      ensures ok ==> index.size < index.cells.Length
    {
      hide Inv, Tiles, Coalesced, Indexed, TagsAt, SameOutside, Kept, Encodes, IndexInsert, Rounded, Wrap;
      hide GrowthInRange, EndHoleAbuts, Lengthened;
      ghost var h, m := State(), ram[..];
      var oldLength, oldEnd := endAddress - startAddress, endAddress;
      PlacedBounds(h);
      HeapOutcomes.ExpandExact(h, newSize);
      WrapRange(oldLength + newSize);
      ok := Expand(Wrap(oldLength + newSize));
      if !ok {
        return;
      }
      ghost var more := GrowthAmount(h, newSize);
      GrownKeepsInv(h, newSize);
      LengthenedPlace(h, h.end + more, more);
      var newLength := endAddress - startAddress;
      GiveToEndHole(oldEnd, newLength - oldLength, h);
      GrownMemory(m, ram[..], h, more);
      sizes, holes := Grown(h, newSize).sizes, Grown(h, newSize).holes;
    }

    /** alloc; None if it stops at an assertion of expand. */
    method Alloc(size: int, align: bool) returns (p: Option<int>)
      requires Valid() && 0 <= size && size + TAGS < TWO32 && index.size < index.cells.Length
      requires AllocReady(State(), size + TAGS, align)
      modifies ram, this`endAddress, this`sizes, this`holes, index`size, index.cells
      ensures p.None? <==> HeapSpec.Alloc(old(State()), size + TAGS, align).Panic?
      ensures var n := size + 20; var length := old(endAddress) - startAddress + n;
        !align ==>
          (p.None? <==>
            && (forall a :: a in old(holes) ==> SizeOf(old(sizes), a) < n)
            && (length >= 0x1_0000_0000
                || startAddress + length + (if length % 2 == 1 then 0x1000 - length % 0x1000 else 0) > maxAddress))
      ensures p.Some? ==> Valid() && AllocStep(old(ram[..]), old(State()), size, align, ram[..], State(), p.value)
      decreases TWO32 - endAddress
    {
      hide Inv, Encodes, Kept, Fits, ExpandAsserts, GrowthInRange, EndHoleAbuts, Grown, Carved, AlignedFits, BlockOf;
      ghost var h, m := State(), ram[..];
      var newSize := Wrap(size + TAGS);
      WrapSmall(size + TAGS);
      if !align {
        HeapOutcomes.AllocPanicsExact(h, newSize);
      }
      var k := FindSmallestHole(newSize, align);
      if k == -1 {
        var ok := Grow(newSize);
        if !ok {
          return None;
        }
        GrownKeepsInv(h, newSize);
        ghost var g, m1 := State(), ram[..];
        p := Alloc(size, align);
        if p.Some? {
          AllocKeepsInv(g, newSize, align);
          KeptTransitive(m, m1, ram[..], h, g, endAddress);
        }
      } else {
        ChosenHole(h, newSize, align);
        var block := Carve(k, size, align);
        return Some(block + HEADER);
      }
    }

    /** contract, without the unmapping of the pages. */
    method Contract(newSize: int) returns (length: int)
      requires 0 <= newSize < endAddress - startAddress && 0 <= startAddress
      modifies this`endAddress
      ensures length == Contracted(newSize) && endAddress == Wrap(startAddress + length)
      ensures length == if newSize / 0x1000 % 2 == 1 || newSize < 0x7_0000 then 0x7_0000 else newSize
    {
      length := newSize;
      if newSize / PAGE % 2 == 1 {
        length := 0x1000;
        length := length + 0x1000;
      }
      if length < HEAP_MIN_SIZE {
        length := HEAP_MIN_SIZE;
      }
      endAddress := Wrap(startAddress + length);
    }

    /** If the merged hole reaches the end of the heap, contracts the heap and shortens the hole. */
    method ContractAtEnd(header: int, end: int, ghost h: Heap, ghost a: int, ghost m: seq<u8>)
      requires ram.Length == TWO32 && Inv(h) && BlockAt(h, a) && FreeReady(h, a)
      requires startAddress == h.start && endAddress == h.end && header == MergedLo(h, a) && end == MergedHi(h, a)
      requires SameOutside(m, ram[..], header, end) && HeaderAt(ram[..], header, end - header, true)
      modifies ram, this`endAddress
      ensures endAddress == Wrap(h.start + FreedLength(h, a))
      ensures SameOutside(m, ram[..], header, end) && HeaderAt(ram[..], header, FreedSize(h, a), true)
      ensures FooterAt(ram[..], header, FreedSize(h, a)) <==>
        end == h.end || FooterAt(old(ram[..]), header, FreedSize(h, a))
    {
      hide Inv, BlockAt, MergedLo, MergedHi, FreeReady, Wrap, SameOutside, Contracted;
      ReadyFits(h, a);
      FreedAmounts(h, a);
      RightBounds(h, a);
      if end == endAddress {
        var oldLength := endAddress - startAddress;
        var newLength := Contract(header - startAddress);
        var newSize := Wrap(end - header - (oldLength - newLength));
        if newSize > 0 {
          ghost var m1 := ram[..];
          ShrinkTags(ram, header, end - header, newSize);
          SameWithin(m, m1, ram[..], header, end, header, end);
        }
      }
    }

    method FreeBlock(a: int, rewrite: bool, ghost h: Heap, ghost m: seq<u8>)
      requires Valid() && h == State() && m == ram[..]
      requires Guarded(m, h) && index.size < index.cells.Length && BlockAt(h, a) && FreeReady(h, a)
      modifies ram, this`endAddress, this`sizes, this`holes, index`size, index.cells
      ensures index.Valid() && State() == Freed(h, a) && Inv(State()) && Kept(m, ram[..], h, h.end, a)
      ensures Encodes(ram[..], State()) <==> rewrite || !GoesStale(h, a)
    {
      hide Inv, Encodes, HeadersIn, Guarded, Kept, MergedLo, MergedHi, MergesLeft, MergesRight, FreeReady, Wrap, Freed;
      hide GoesStale;
      hide SameOutside, FreedSize, FreedLength, IndexInsert, Without, Splice, SpliceHoles, HeaderAt, FooterAt;
      PlacedBounds(h);
      BlockTags(m, h, a);
      MergedBounds(h, a);
      ReadyFits(h, a);
      FreedKeepsInv(h, a);
      StaleCases(h, a);
      FreedFields(h, a);
      FreedAmounts(h, a);
      var size := BlockSizeAt(ram, a, h.sizes[a]);
      var header, doAdd := MergeLeft(ram, a, size, h);
      var end := MergeRight(ram, index, a, header, size, rewrite, h, m);
      ContractAtEnd(header, end, h, a, m);
      ghost var m' := ram[..];
      FreedMemory(m, m', h, a);
      assert Encodes(m', Freed(h, a)) <==> rewrite || !GoesStale(h, a);
      if doAdd {
        InsertByHeaders(m', Freed(h, a), index.Contents(), header);
        index.Insert(header, HeaderLess(ram[..]));
      }
      ghost var f := Freed(h, a);
      sizes, holes := f.sizes, f.holes;
      assert State() == f;
    }

    /**
     * free. If rewrite is set, the footer of a hole merged from the right is redirected to the merged header, as
     * the comment of the source announces; without it, as the source is written, that footer goes stale.
     */
    method Free(p: int, rewrite: bool)
      requires Valid() && Guarded(ram[..], State()) && index.size < index.cells.Length
      requires p != 0 ==> BlockAt(State(), p - HEADER) && FreeReady(State(), p - HEADER)
      modifies ram, this`endAddress, this`sizes, this`holes, index`size, index.cells
      ensures index.Valid() && Inv(State()) && FreeDone(old(ram[..]), old(State()), p, rewrite, ram[..], State())
      ensures Valid() <==> p == 0 || rewrite || !GoesStale(old(State()), p - HEADER)
    {
      hide Inv, Encodes, Guarded, Kept, BlockAt, FreeReady, Freed, GoesStale;
      if p != 0 {
        FreeBlock(p - HEADER, rewrite, State(), ram[..]);
      }
    }
  }

  /** The test on sizes that are read from memory. */
  lemma FitsRead(a: int, holeSize: int, size: int, align: bool)
    requires 0 <= holeSize < TWO32 && 0 <= size < TWO32
    ensures var offset := if (a + HEADER) % 2 == 1 then PAGE - (a + HEADER) % PAGE else 0;
      Fits(a, holeSize, size, align) <==>
        if align then Signed(holeSize) - offset >= Signed(size) else holeSize >= size
  {
    hide Signed;
    WrapSmall(holeSize);
    WrapSmall(size);
  }

  lemma PlainBlock(a: int, align: bool)
    ensures !(align && a >= PAGE) ==> BlockOf(a, align) == a
  {
  }

  lemma CarvedFields(h: Heap, k: nat, n: int, align: bool)
    requires k < |h.index|
    ensures var g := Carved(h, k, n, align); var a := h.index[k];
      var rest, at := RestOf(a, SizeOf(h.sizes, a), n, align),
        Wrap(BlockOf(a, align) + BlockSize(SizeOf(h.sizes, a), n));
      var kept := if align && a >= PAGE then h.index else RemoveAt(h.index, k);
      && g.start == h.start && g.end == h.end && g.max == h.max
      && g.index == if rest > 0 then IndexInsert(kept, at, g.sizes) else kept
  {
    hide RestOf, Wrap, BlockOf, BlockSize, RemoveAt, IndexInsert, Pieces, NewHoles;
  }

  lemma StaleCases(h: Heap, a: int)
    ensures GoesStale(h, a) <==> MergesRight(h, a) && MergedHi(h, a) != h.end
  {
  }

  lemma FreedFields(h: Heap, a: int)
    requires BlockAt(h, a)
    ensures var f := Freed(h, a);
      && f.start == h.start && f.max == h.max && f.end == Wrap(h.start + FreedLength(h, a))
      && f.index == var kept := if MergesRight(h, a) then Without(h.index, a + h.sizes[a]) else h.index;
                    if MergesLeft(h, a) then kept else IndexInsert(kept, MergedLo(h, a), f.sizes)
  {
    hide MergesLeft, MergesRight, MergedLo, MergedHi, FreedSize, FreedLength, Splice, SpliceHoles, Wrap, IndexInsert;
    hide Without;
  }
}
