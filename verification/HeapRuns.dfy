/** Runs of calls and writes: the heap stays well formed, payloads keep their bytes, and the index stays sorted. */
module HeapRuns {
  import opened Machine
  import opened OrderedArrays
  import opened Tiling
  import opened HeapSpec
  import opened HeapInvariant
  import opened HeapMemory
  import opened HeapTheorems
  import opened HeapOrder
  import opened HeapSteps

  /** The payload of the block that p points to ends here. */
  function PayloadEnd(h: Heap, p: int): int {
    p - HEADER + SizeOf(h.sizes, p - HEADER) - FOOTER
  }

  predicate Live(h: Heap, p: int) {
    BlockAt(h, p - HEADER)
  }

  datatype Config = Config(mem: seq<u8>, heap: Heap)

  /** Write is the owner of a block changing its payload, Elsewhere a change outside the heap. */
  datatype Event = AllocCall(size: int, align: bool, p: int) | FreeCall(p: int) | Write(p: int) | Elsewhere

  ghost predicate Step(c: Config, e: Event, c': Config) {
    match e
    case AllocCall(size, align, p) => AllocStep(c.mem, c.heap, size, align, c'.mem, c'.heap, p)
    case FreeCall(p) => FreeStep(c.mem, c.heap, p, c'.mem, c'.heap)
    case Write(p) => Live(c.heap, p) && c'.heap == c.heap && SameOutside(c.mem, c'.mem, p, PayloadEnd(c.heap, p))
    case Elsewhere =>
      && c'.heap == c.heap && |c'.mem| == |c.mem|
      && forall i :: c.heap.start <= i < c.heap.end && 0 <= i < |c.mem| ==> c'.mem[i] == c.mem[i]
  }

  ghost predicate Run(cs: seq<Config>, es: seq<Event>) {
    |cs| == |es| + 1 && forall i :: 0 <= i < |es| ==> Step(cs[i], es[i], cs[i + 1])
  }

  ghost predicate Good(c: Config) {
    Inv(c.heap) && Encodes(c.mem, c.heap)
  }

  // ---------------------------------------------------------------- the invariant over runs

  /** Changing bytes that belong to no tag leaves the tags. */
  lemma TagsUntouched(m: seq<u8>, m': seq<u8>, h: Heap)
    requires Inv(h) && Encodes(m, h) && |m'| == |m|
    requires forall a, i ::
      0 <= i < |m| && a in h.sizes && (a <= i < a + HEADER || a + h.sizes[a] - FOOTER <= i < a + h.sizes[a]) ==>
        m'[i] == m[i]
    ensures Encodes(m', h)
  {
    hide Indexed, Coalesced;
    forall a | a in h.sizes ensures HeaderAt(m', a, h.sizes[a], a in h.holes) {
      assert HeaderAt(m, a, h.sizes[a], a in h.holes);
      HeaderSame(m, m', a, h.sizes[a], a in h.holes);
    }
    if !OneHole(h) {
      forall a | a in h.sizes ensures FooterAt(m', a, h.sizes[a]) {
        assert FooterAt(m, a, h.sizes[a]);
        FooterSame(m, m', a, h.sizes[a]);
      }
    }
  }

  lemma HeaderSame(m: seq<u8>, m': seq<u8>, a: int, size: int, hole: bool)
    requires |m| == |m'| == TWO32 && HeaderAt(m, a, size, hole)
    requires forall i :: a <= i < a + HEADER ==> m'[i] == m[i]
    ensures HeaderAt(m', a, size, hole)
  {
  }

  lemma FooterSame(m: seq<u8>, m': seq<u8>, a: int, size: int)
    requires |m| == |m'| == TWO32 && FooterAt(m, a, size)
    requires forall i :: a + size - FOOTER <= i < a + size ==> m'[i] == m[i]
    ensures FooterAt(m', a, size)
  {
  }

  /** The payloads of two live pointers are disjoint, and no tag of any chunk lies in a payload. */
  lemma PayloadsDisjoint(h: Heap, p: int, q: int)
    requires Inv(h) && Live(h, p)
    ensures Live(h, q) && q != p ==> PayloadEnd(h, p) <= q || PayloadEnd(h, q) <= p
    ensures forall a :: a in h.sizes ==>
      (PayloadEnd(h, p) <= a || a + HEADER <= p) && (PayloadEnd(h, p) <= a + h.sizes[a] - FOOTER || a + h.sizes[a] <= p)
    ensures 0 < h.start < p - HEADER + 1 <= p <= PayloadEnd(h, p) < h.end
  {
    hide Coalesced, Indexed;
  }

  /** What is in memory around the payload of a live pointer: header and footer, byte for byte as in kheap.h. */
  lemma LiveInMemory(c: Config, p: int)
    requires Good(c) && Live(c.heap, p)
    ensures var size := SizeOf(c.heap.sizes, p - 12);
      && 20 <= size && 12 <= p && p - 12 + size < |c.mem| && PayloadEnd(c.heap, p) == p + size - 20
      && Word(c.mem, p - 12) == 0x1238_90AB && c.mem[p - 8] == 0 && Word(c.mem, p - 4) == size
      && Word(c.mem, p + size - 20) == 0x1238_90AB && Word(c.mem, p + size - 16) == p - 12
  {
    hide Tiles, Coalesced, Indexed, Word;
    var a := p - HEADER;
    PayloadsDisjoint(c.heap, p, p);
    AtLeastTags(c.heap, a);
    assert HeaderAt(c.mem, a, c.heap.sizes[a], false);
    assert FooterAt(c.mem, a, c.heap.sizes[a]);
  }

  lemma StepKeepsGood(c: Config, e: Event, c': Config)
    requires Good(c) && Step(c, e, c')
    ensures Good(c')
  {
    hide Inv, Encodes, AllocReady, FreeReady, BlockAt, Kept;
    match e
    case AllocCall(size, align, p) => AllocKeepsInv(c.heap, size + TAGS, align);
    case FreeCall(p) =>
      ReadyFits(c.heap, p - HEADER);
      FreedKeepsInv(c.heap, p - HEADER);
    case Write(p) => WriteKeepsTags(c, c', p);
    case Elsewhere => ElsewhereKeepsTags(c, c');
  }

  lemma WriteKeepsTags(c: Config, c': Config, p: int)
    requires Good(c) && Step(c, Write(p), c')
    ensures Encodes(c'.mem, c.heap)
  {
    hide Tiles, Coalesced, Indexed, HeadersIn, OneHole, Live;
    PayloadsDisjoint(c.heap, p, p);
    TagsUntouched(c.mem, c'.mem, c.heap);
  }

  lemma ElsewhereKeepsTags(c: Config, c': Config)
    requires Good(c) && Step(c, Elsewhere, c')
    ensures Encodes(c'.mem, c.heap)
  {
    hide Coalesced, Indexed, OneHole;
    TagsUntouched(c.mem, c'.mem, c.heap);
  }

  /** Every configuration of a run that starts in a well-formed heap is well formed. */
  lemma {:induction false} RunGood(cs: seq<Config>, es: seq<Event>, k: nat)
    requires Run(cs, es) && k < |cs| && Good(cs[0])
    ensures Good(cs[k])
  {
    hide Good, Step;
    if k > 0 {
      RunGood(cs, es, k - 1);
      StepKeepsGood(cs[k - 1], es[k - 1], cs[k]);
    }
  }

  // ---------------------------------------------------------------- payloads over runs

  /** An allocation yields a pointer that was not live, with room for the requested bytes, and keeps all live ones. */
  lemma AllocYields(c: Config, size: int, align: bool, p: int, c': Config)
    requires Good(c) && Step(c, AllocCall(size, align, p), c')
    ensures !Live(c.heap, p) && Live(c'.heap, p) && size <= PayloadEnd(c'.heap, p) - p
    ensures forall q :: Live(c'.heap, q) <==> Live(c.heap, q) || q == p
    ensures align ==> p % PAGE == 0
  {
    hide Inv, Encodes, AllocReady, Kept, Alloc;
    AllocKeepsInv(c.heap, size + TAGS, align);
    if align {
      AlignedPointer(c.heap, size + TAGS);
    }
  }

  /** The bytes of the payload of p are the same in both configurations, and so is its end. */
  ghost predicate SamePayload(c: Config, c': Config, p: int) {
    && |c'.mem| == |c.mem| && Live(c'.heap, p)
    && PayloadEnd(c'.heap, p) == PayloadEnd(c.heap, p)
    && forall i :: p <= i < PayloadEnd(c.heap, p) && 0 <= i < |c.mem| ==> c'.mem[i] == c.mem[i]
  }

  lemma AllocKeepsPayload(c: Config, e: Event, c': Config, p: int)
    requires Good(c) && Step(c, e, c') && e.AllocCall? && Live(c.heap, p)
    ensures SamePayload(c, c', p)
  {
    hide Inv, Encodes, AllocReady, Alloc;
    PayloadsDisjoint(c.heap, p, p);
    AllocKeepsInv(c.heap, e.size + TAGS, e.align);
    BlocksKeepPayload(c.mem, c'.mem, c.heap, c'.heap.end, -1, p);
  }

  lemma FreeKeepsPayload(c: Config, e: Event, c': Config, p: int)
    requires Good(c) && Step(c, e, c') && e.FreeCall? && Live(c.heap, p) && e.p != p
    ensures SamePayload(c, c', p)
  {
    hide Inv, Encodes, FreeReady, Freed;
    FreedBlocks(c.heap, e.p - HEADER);
    BlocksKeepPayload(c.mem, c'.mem, c.heap, c.heap.end, e.p - HEADER, p);
  }

  lemma BlocksKeepPayload(m: seq<u8>, m': seq<u8>, h: Heap, end: int, except: int, p: int)
    requires Kept(m, m', h, end, except) && Live(h, p) && p - HEADER != except
    ensures forall i :: p <= i < PayloadEnd(h, p) && 0 <= i < |m| ==> m'[i] == m[i]
  {
  }

  /** A step changes no byte of a payload unless it frees the block or is its owner's write. */
  lemma StepKeepsPayload(c: Config, e: Event, c': Config, p: int)
    requires Good(c) && Step(c, e, c') && Live(c.heap, p) && e != FreeCall(p) && e != Write(p)
    ensures SamePayload(c, c', p)
  {
    hide Inv, Encodes, AllocReady, FreeReady, Freed, Kept, AllocStep, FreeStep;
    PayloadsDisjoint(c.heap, p, p);
    match e
    case AllocCall(size, align, q) => AllocKeepsPayload(c, e, c', p);
    case FreeCall(q) => FreeKeepsPayload(c, e, c', p);
    case Write(q) => PayloadsDisjoint(c.heap, p, q);
    case Elsewhere =>
  }

  /** Payload safety: from one configuration of a run to a later one, a payload keeps its bytes until it is
      freed or written by its owner. */
  lemma {:induction false} RunKeepsPayload(cs: seq<Config>, es: seq<Event>, i: nat, j: nat, p: int)
    requires Run(cs, es) && Good(cs[0]) && i <= j < |cs| && Live(cs[i].heap, p)
    requires forall k :: i <= k < j ==> es[k] != FreeCall(p) && es[k] != Write(p)
    ensures SamePayload(cs[i], cs[j], p)
    decreases j
  {
    if i < j {
      RunKeepsPayload(cs, es, i, j - 1, p);
      RunGood(cs, es, j - 1);
      StepKeepsPayload(cs[j - 1], es[j - 1], cs[j], p);
    }
  }

  // ---------------------------------------------------------------- sorted index over runs

  /**
   * The event resizes no indexed hole out of its place: an aligned alloc leaves a front hole, and a free that merges
   * to the left a larger hole, that fits between its neighbours in the index.
   */
  ghost predicate KeepsOrder(h: Heap, e: Event) {
    match e
    case AllocCall(size, align, p) =>
      var a := Taken(h, size + TAGS, align);
      align ==> InPlace(h.index, a, FrontSize(a), h.sizes)
    case FreeCall(p) =>
      var a := p - HEADER;
      MergesLeft(h, a) ==> InPlace(KeptIndex(h, a), MergedLo(h, a), FreedSize(h, a), h.sizes)
    case Write(p) => true
    case Elsewhere => true
  }

  lemma StepSortedExact(c: Config, e: Event, c': Config)
    requires Good(c) && Step(c, e, c') && SortedBySize(c.heap)
    ensures SortedBySize(c'.heap) <==> KeepsOrder(c.heap, e)
  {
    hide Inv, Encodes, AllocStep, FreeStep, SortedBySize, KeepsOrder;
    match e
    case AllocCall(size, align, p) => AllocStepSorted(c, size, align, p, c');
    case FreeCall(p) => FreeStepSorted(c, p, c');
    case Write(p) => assert KeepsOrder(c.heap, e) by { hide *; UnchangedOrder(c.heap, e); }
    case Elsewhere => assert KeepsOrder(c.heap, e) by { hide *; UnchangedOrder(c.heap, e); }
  }

  lemma UnchangedOrder(h: Heap, e: Event)
    requires e.Write? || e.Elsewhere?
    ensures KeepsOrder(h, e)
  {
  }

  lemma AllocStepSorted(c: Config, size: int, align: bool, p: int, c': Config)
    requires Good(c) && Step(c, AllocCall(size, align, p), c') && SortedBySize(c.heap)
    ensures SortedBySize(c'.heap) <==> KeepsOrder(c.heap, AllocCall(size, align, p))
  {
    hide Inv, Encodes, AllocReady, Alloc, Kept, SortedBySize, SortedApart, InPlace, Taken, FrontSize;
    SortedIsApart(c.heap, Taken(c.heap, size + TAGS, align));
    AllocSortedExact(c.heap, size + TAGS, align);
  }

  lemma FreeStepSorted(c: Config, p: int, c': Config)
    requires Good(c) && Step(c, FreeCall(p), c') && SortedBySize(c.heap)
    ensures SortedBySize(c'.heap) <==> KeepsOrder(c.heap, FreeCall(p))
  {
    hide Inv, Encodes, FreeReady, Freed, BlockAt, Kept, SortedBySize, InPlace, MergesLeft, MergedLo, KeptIndex;
    hide FreedSize;
    FreedSortedExact(c.heap, p - HEADER);
  }

  /** Along a run from a sorted index, the index stays sorted exactly as long as every event keeps the order. */
  lemma {:induction false} RunSortedExact(cs: seq<Config>, es: seq<Event>, k: nat)
    requires Run(cs, es) && k < |cs| && Good(cs[0]) && SortedBySize(cs[0].heap)
    ensures (forall i :: 0 <= i <= k ==> SortedBySize(cs[i].heap))
      <==> (forall i :: 0 <= i < k ==> KeepsOrder(cs[i].heap, es[i]))
  {
    hide Good, SortedBySize, KeepsOrder, Step;
    if k > 0 {
      RunSortedExact(cs, es, k - 1);
      RunGood(cs, es, k - 1);
      if SortedBySize(cs[k - 1].heap) {
        StepSortedExact(cs[k - 1], es[k - 1], cs[k]);
      }
    }
  }

  /** On a run whose events keep the order, every unaligned search finds a hole of least sufficient size. */
  lemma RunBestFit(cs: seq<Config>, es: seq<Event>, k: nat, n: int)
    requires Run(cs, es) && k < |cs| && Good(cs[0]) && SortedBySize(cs[0].heap)
    requires forall i :: 0 <= i < k ==> KeepsOrder(cs[i].heap, es[i])
    ensures var h := cs[k].heap; var r := Search(h, n, false, 0);
      r < |h.index| ==>
        forall b :: b in h.holes && n <= SizeOf(h.sizes, b) ==> SizeOf(h.sizes, h.index[r]) <= SizeOf(h.sizes, b)
  {
    hide Inv, Encodes, SortedBySize, KeepsOrder, Step;
    RunSortedExact(cs, es, k);
    RunGood(cs, es, k);
    assert SortedBySize(cs[k].heap);
    if Search(cs[k].heap, n, false, 0) < |cs[k].heap.index| {
      SearchBestFit(cs[k].heap, n);
    }
  }
}
