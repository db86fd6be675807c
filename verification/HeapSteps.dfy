/** What one call of alloc or free does to the memory and to the chunks together. */
module HeapSteps {
  import opened Machine
  import opened Tiling
  import opened HeapSpec
  import opened HeapMemory

  /** Bytes outside the heap and bytes of blocks other than the excepted one are the same in both memories. */
  ghost predicate Kept(m: seq<u8>, m': seq<u8>, h: Heap, end: int, except: int) {
    && |m'| == |m|
    && (forall i :: 0 <= i < |m| && (i < h.start || end <= i) ==> m'[i] == m[i])
    && (forall a, i :: BlockAt(h, a) && a != except && a <= i < a + h.sizes[a] && 0 <= i < |m| ==> m'[i] == m[i])
  }

  /** A call of alloc for size bytes that returns p. */
  ghost predicate AllocStep(m: seq<u8>, h: Heap, size: int, align: bool, m': seq<u8>, h': Heap, p: int) {
    && 0 <= size && size + TAGS < TWO32 && AllocReady(h, size + TAGS, align)
    && Alloc(h, size + TAGS, align) == Allocated(h', p - HEADER)
    && Encodes(m', h') && Kept(m, m', h, h'.end, -1)
  }

  /** What free does, with or without the rewritten footer; without it, a footer that goes stale is not encoded. */
  ghost predicate FreeDone(m: seq<u8>, h: Heap, p: int, rewrite: bool, m': seq<u8>, h': Heap) {
    if p == 0 then m' == m && h' == h
    else
      var a := p - HEADER;
      && BlockAt(h, a) && FreeReady(h, a) && h' == Freed(h, a) && Kept(m, m', h, h.end, a)
      && (Encodes(m', h') <==> rewrite || !GoesStale(h, a))
  }

  /** A free that leaves all tags right is a step. */
  lemma FreeDoneStep(m: seq<u8>, h: Heap, p: int, rewrite: bool, m': seq<u8>, h': Heap)
    requires FreeDone(m, h, p, rewrite, m', h') && p != 0
    ensures FreeStep(m, h, p, m', h') <==> rewrite || !GoesStale(h, p - HEADER)
  {
    hide BlockAt, FreeReady, Freed, Kept, Encodes, GoesStale;
  }

  /** A call of free for the pointer p. */
  ghost predicate FreeStep(m: seq<u8>, h: Heap, p: int, m': seq<u8>, h': Heap) {
    && BlockAt(h, p - HEADER) && FreeReady(h, p - HEADER)
    && h' == Freed(h, p - HEADER)
    && Encodes(m', h') && Kept(m, m', h, h.end, p - HEADER)
  }
}
