/** The boundary tags of the heap in a byte memory. */
module HeapMemory {
  import opened Machine
  import opened Tiling
  import opened HeapSpec

  const HEAP_MAGIC: int := 0x123890AB

  /** The header of a chunk: magic number, hole flag, three bytes of padding, size. */
  ghost predicate HeaderAt(m: seq<u8>, a: int, size: int, hole: bool)
    requires |m| == TWO32
  {
    0 <= a && a + HEADER <= TWO32
    && Word(m, a) == HEAP_MAGIC && m[a + 4] == (if hole then 1 else 0) && Word(m, a + 8) == size
  }

  /** The footer of the chunk at a: magic number and the address of the header. */
  ghost predicate FooterAt(m: seq<u8>, a: int, size: int)
    requires |m| == TWO32
  {
    0 <= a + size - FOOTER && a + size <= TWO32
    && Word(m, a + size - FOOTER) == HEAP_MAGIC && Word(m, a + size - 4) == a
  }

  ghost predicate TagsAt(m: seq<u8>, a: int, size: int, hole: bool)
    requires |m| == TWO32
  {
    HeaderAt(m, a, size, hole) && FooterAt(m, a, size)
  }

  /** The heap is one hole, as create_heap leaves it; only such a hole may lack its footer. */
  ghost predicate OneHole(h: Heap) {
    h.sizes.Keys == {h.start} && h.start in h.holes
  }

  ghost predicate HeadersIn(m: seq<u8>, h: Heap) {
    |m| == TWO32 && forall a :: a in h.sizes ==> HeaderAt(m, a, h.sizes[a], a in h.holes)
  }

  /** The memory holds the tags of the chunks of the heap. */
  ghost predicate Encodes(m: seq<u8>, h: Heap) {
    && HeadersIn(m, h)
    && (!OneHole(h) ==> forall a :: a in h.sizes ==> FooterAt(m, a, h.sizes[a]))
  }

  /** Tags outside a written range stay. */
  lemma TagsFrame(m: seq<u8>, m': seq<u8>, lo: int, hi: int, a: int, size: int, hole: bool)
    requires |m| == TWO32 && SameOutside(m, m', lo, hi) && (a + size <= lo || hi <= a) && TAGS <= size
    requires a + size <= TWO32
    ensures HeaderAt(m, a, size, hole) ==> HeaderAt(m', a, size, hole)
    ensures FooterAt(m, a, size) ==> FooterAt(m', a, size)
  {
  }

  /**
   * If the chunks between lo and hi are replaced by those of d, and only [lo, hi) is written, so that the
   * memory then holds the tags of d, it holds the tags of the whole new heap.
   */
  lemma EncodesSplice(m: seq<u8>, m': seq<u8>, h: Heap, g: Heap, lo: int, hi: int, d: Chunks, dHoles: set<int>)
    requires Inv(h) && Encodes(m, h) && SameOutside(m, m', lo, hi)
    requires lo in h.sizes || (lo == h.end && !OneHole(h))
    requires g.sizes == Splice(h.sizes, lo, hi, d) && g.holes == SpliceHoles(h.holes, lo, hi, dHoles)
    requires dHoles <= d.Keys && lo < hi
    requires forall a :: a in d ==> lo <= a < hi && TagsAt(m', a, d[a], a in dHoles)
    ensures Encodes(m', g)
  {
    forall a | a in g.sizes ensures TagsAt(m', a, g.sizes[a], a in g.holes) {
      if a !in d {
        KeptTags(m, m', h, lo, hi, a);
      }
    }
  }

  /** The same for the headers alone. */
  lemma HeadersSplice(m: seq<u8>, m': seq<u8>, h: Heap, g: Heap, lo: int, hi: int, d: Chunks, dHoles: set<int>)
    requires Inv(h) && Encodes(m, h) && SameOutside(m, m', lo, hi)
    requires lo in h.sizes && lo < hi
    requires g.sizes == Splice(h.sizes, lo, hi, d) && g.holes == SpliceHoles(h.holes, lo, hi, dHoles)
    requires dHoles <= d.Keys
    requires forall a :: a in d ==> lo <= a < hi && HeaderAt(m', a, d[a], a in dHoles)
    ensures HeadersIn(m', g)
  {
    forall a | a in g.sizes ensures HeaderAt(m', a, g.sizes[a], a in g.holes) {
      if a !in d {
        KeptTags(m, m', h, lo, hi, a);
      }
    }
  }

  lemma KeptTags(m: seq<u8>, m': seq<u8>, h: Heap, lo: int, hi: int, a: int)
    requires Inv(h) && Encodes(m, h) && SameOutside(m, m', lo, hi) && lo < hi
    requires a in h.sizes && !(lo <= a < hi) && (lo in h.sizes || (lo == h.end && !OneHole(h)))
    ensures TagsAt(m', a, h.sizes[a], a in h.holes)
  {
    hide HeaderAt, FooterAt, SameOutside;
    ChunkOutside(h, lo, hi, a);
    TagsFrame(m, m', lo, hi, a, h.sizes[a], a in h.holes);
  }

  lemma ChunkOutside(h: Heap, lo: int, hi: int, a: int)
    requires Inv(h) && lo < hi && a in h.sizes && !(lo <= a < hi) && (lo in h.sizes || (lo == h.end && !OneHole(h)))
    ensures (a + h.sizes[a] <= lo || hi <= a) && TAGS <= h.sizes[a] && a + h.sizes[a] <= TWO32 && !OneHole(h)
  {
    hide Indexed, Coalesced;
  }
}
