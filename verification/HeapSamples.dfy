/** Heaps that calls from a fresh kernel heap lead to, and on which the source goes wrong. */
module HeapSamples {
  import opened Machine
  import opened OrderedArrays
  import opened Tiling
  import opened HeapSpec
  import opened HeapInvariant
  import opened HeapTheorems
  import opened HeapOrder

  const START: int := 0xC008_0000    // KHEAP_START, behind the index
  const END: int := 0xC010_0000      // KHEAP_START + KHEAP_INITIAL_SIZE
  const MAX: int := 0xCFFF_F000
  const LENGTH: int := 0x8_0000

  /** The heap that initialise_paging creates. */
  function Fresh(): Heap {
    FirstHole(START, END, MAX)
  }

  /** alloc returns for n bytes, tags included, under its condition. */
  ghost predicate Returns(h: Heap, n: int, align: bool) {
    TAGS <= n < TWO32 && AllocReady(h, n, align) && Alloc(h, n, align).Allocated?
  }

  /**
   * One call of alloc or of the repaired free, under its condition, that returns. With plain set, a free on which
   * the source as written does the same.
   */
  ghost predicate Call(h: Heap, h': Heap, plain: bool) {
    || (exists n, align :: Returns(h, n, align) && Alloc(h, n, align).heap == h')
    || (exists a :: BlockAt(h, a) && FreeReady(h, a) && (plain ==> !GoesStale(h, a)) && Freed(h, a) == h')
  }

  ghost predicate Calls(hs: seq<Heap>, plain: bool) {
    |hs| >= 1 && hs[0] == Fresh() && forall i :: 0 <= i < |hs| - 1 ==> Call(hs[i], hs[i + 1], plain)
  }

  ghost predicate Reachable(h: Heap, plain: bool) {
    exists hs :: Calls(hs, plain) && hs[|hs| - 1] == h
  }

  lemma ReachableFresh()
    ensures Reachable(Fresh(), true)
  {
    assert Calls([Fresh()], true);
  }

  lemma ReachableNext(h: Heap, h': Heap)
    requires Reachable(h, true) && Call(h, h', true)
    ensures Reachable(h', true)
  {
    hide Call, Fresh;
    var hs :| Calls(hs, true) && hs[|hs| - 1] == h;
    assert Calls(hs + [h'], true);
  }

  /** Whatever is reachable satisfies the invariant, never moves its start and is never shorter than HEAP_MIN_SIZE. */
  lemma ReachableValid(h: Heap, plain: bool)
    requires Reachable(h, plain)
    ensures Inv(h) && h.start == START && h.max == MAX && Length(h) >= HEAP_MIN_SIZE
  {
    hide Call, Fresh, Inv;
    var hs :| Calls(hs, plain) && hs[|hs| - 1] == h;
    CallsValid(hs, plain, |hs| - 1);
  }

  lemma {:induction false} CallsValid(hs: seq<Heap>, plain: bool, k: nat)
    requires Calls(hs, plain) && k < |hs|
    ensures Inv(hs[k]) && hs[k].start == START && hs[k].max == MAX && Length(hs[k]) >= HEAP_MIN_SIZE
  {
    hide Call, Inv;
    if k == 0 {
      FreshValid();
    } else {
      CallsValid(hs, plain, k - 1);
      CallKeepsLength(hs[k - 1], hs[k], plain);
    }
  }

  lemma FreshValid()
    ensures Inv(Fresh()) && Fresh().start == START && Fresh().max == MAX && Length(Fresh()) == LENGTH
  {
    OneChunk(START, END - START);
  }

  /** No call makes a heap shorter than HEAP_MIN_SIZE, so the length never stands in the way of a free. */
  lemma CallKeepsLength(h: Heap, h': Heap, plain: bool)
    requires Inv(h) && Call(h, h', plain) && Length(h) >= HEAP_MIN_SIZE
    ensures Inv(h') && h'.start == h.start && h'.max == h.max && Length(h') >= HEAP_MIN_SIZE
  {
    hide Inv, AllocReady, FreeReady, BlockAt, Freed, MergedHi, MergedLo;
    if n, align :| Returns(h, n, align) && Alloc(h, n, align).heap == h' {
      AllocKeepsInv(h, n, align);
    } else {
      var a :| BlockAt(h, a) && FreeReady(h, a) && Freed(h, a) == h';
      ReadyFits(h, a);
      FreedKeepsInv(h, a);
      FreedAmounts(h, a);
      FreedEnd(h, a);
    }
  }

  lemma AllocCalled(h: Heap, n: int, align: bool)
    requires Reachable(h, true) && Returns(h, n, align)
    ensures Reachable(Alloc(h, n, align).heap, true)
  {
    hide Reachable, AllocReady, Alloc;
    ReachableNext(h, Alloc(h, n, align).heap);
  }

  lemma FreeCalled(h: Heap, a: int)
    requires Reachable(h, true) && BlockAt(h, a) && FreeReady(h, a) && !GoesStale(h, a)
    ensures Reachable(Freed(h, a), true)
  {
    hide Reachable, FreeReady, Freed, BlockAt, GoesStale;
    ReachableNext(h, Freed(h, a));
  }

  // ---------------------------------------------------------------- a page-aligned request

  /**
   * On the fresh heap the aligned test accepts a hole that has no room for the block: the first request of this size
   * breaks the heap.
   */
  lemma AlignedTestUnsound()
    ensures var h := Fresh(); var n := LENGTH - 4000;
      Reachable(h, true) && Search(h, n, true, 0) == 0 && !AllocReady(h, n, true) && !Inv(Carved(h, 0, n, true))
  {
    hide Inv, Fits, Wrap, Carved, AlignedFits, FrontSize, Reachable;
    var h, n := Fresh(), LENGTH - 4000;
    ReachableFresh();
    FreshValid();
    AlignedTest(START, LENGTH, n);
    NoRoom();
    AlignedExact(h, 0, n);
  }

  lemma NoRoom()
    ensures !AlignedFits(START, LENGTH, LENGTH - 4000)
  {
    WrapSmall(PAGE - HEADER);
  }

  // ---------------------------------------------------------------- a request whose size wraps

  /** A request of ten bytes less than 2^32 gets ten bytes of the fresh hole, which is no chunk. */
  lemma RequestUnsound()
    ensures var h := Fresh(); var n := Wrap(0xFFFF_FFF6 + TAGS);
      Reachable(h, true) && n == 10 && Search(h, n, false, 0) == 0 && !Inv(Carved(h, 0, n, false))
  {
    hide Reachable;
    ReachableFresh();
    WrapOnce(0xFFFF_FFF6 + TAGS);
    WrapSmall(LENGTH - 10);
    assert START in Carved(Fresh(), 0, 10, false).sizes && Carved(Fresh(), 0, 10, false).sizes[START] == 10;
  }

  // ---------------------------------------------------------------- a sequence of calls

  /** An alloc that splits the only hole. */
  lemma SplitsOnly(h: Heap, a: int, n: int)
    requires Inv(h) && h.index == [a] && TAGS <= n && n + TAGS <= SizeOf(h.sizes, a)
    ensures AllocReady(h, n, false)
    ensures Alloc(h, n, false) ==
      Allocated(h.(sizes := h.sizes[a := n][a + n := h.sizes[a] - n], holes := {a + n}, index := [a + n]), a)
  {
    hide Tiles, Coalesced, Pieces, PieceHoles, BlockSize, RestOf, Wrap;
    HoleBounds(h, 0);
    PiecesSplit(a, h.sizes[a], n);
    WrapSmall(a + n);
    OnlyHole(h, a);
    assert Search(h, n, false, 0) == 0;
    assert RemoveAt(h.index, 0) == [];
    InsertedOnly(a + n, SizeLess(Carved(h, 0, n, false).sizes));
  }

  /** An alloc that takes the only hole entirely. */
  lemma TakesOnly(h: Heap, a: int)
    requires Inv(h) && h.index == [a]
    ensures TAGS <= SizeOf(h.sizes, a) < TWO32 && AllocReady(h, SizeOf(h.sizes, a), false)
    ensures Alloc(h, SizeOf(h.sizes, a), false) == Allocated(h.(holes := {}, index := []), a)
  {
    hide Tiles, Coalesced, Pieces, PieceHoles, BlockSize, RestOf, Wrap;
    HoleBounds(h, 0);
    PiecesWhole(a, h.sizes[a], h.sizes[a]);
    OnlyHole(h, a);
    assert Search(h, h.sizes[a], false, 0) == 0;
    assert RemoveAt(h.index, 0) == [];
  }

  lemma OnlyHole(h: Heap, a: int)
    requires Inv(h) && h.index == [a]
    ensures h.holes == {a}
  {
    assert forall b :: b in h.holes <==> b in h.index;
  }

  lemma InsertedOnly(a: int, less: (int, int) -> bool)
    ensures Inserted([], a, less) == [a]
  {
  }

  /** A free between two blocks, or between a block and the start. */
  lemma FreesAlone(h: Heap, a: int)
    requires Inv(h) && BlockAt(h, a) && a + SizeOf(h.sizes, a) !in h.holes && a + SizeOf(h.sizes, a) != h.end
    requires forall b :: b in h.holes ==> b + SizeOf(h.sizes, b) != a
    ensures FreeReady(h, a) && !GoesStale(h, a)
    ensures Freed(h, a) == h.(holes := h.holes + {a}, index := IndexInsert(h.index, a, h.sizes))
  {
    hide Inv, MergedLo, MergedHi, MergesLeft, MergesRight, IndexInsert, FreedSize, FreedLength, Wrap, Splice;
    hide SpliceHoles;
    AloneBounds(h, a);
    AloneSplice(h, a);
    FreedAmounts(h, a);
    PlacedBounds(h);
  }

  lemma AloneBounds(h: Heap, a: int)
    requires Inv(h) && BlockAt(h, a) && a + SizeOf(h.sizes, a) !in h.holes
    requires forall b :: b in h.holes ==> b + SizeOf(h.sizes, b) != a
    ensures !MergesLeft(h, a) && !MergesRight(h, a) && MergedLo(h, a) == a && MergedHi(h, a) == a + h.sizes[a]
  {
    hide Coalesced, Indexed;
  }

  lemma AloneSplice(h: Heap, a: int)
    requires Inv(h) && BlockAt(h, a)
    ensures Splice(h.sizes, a, a + h.sizes[a], map[a := h.sizes[a]]) == h.sizes
    ensures SpliceHoles(h.holes, a, a + h.sizes[a], {a}) == h.holes + {a}
  {
    hide Coalesced, Indexed;
    assert forall x :: x in h.sizes && a <= x < a + h.sizes[a] ==> x == a;
  }

  /** Blocks of 30, 40, 40, 50 and 40 bytes from the start on, and a block up to the end. */
  function Sizes(): Chunks {
    map[START := 30, START + 30 := 40, START + 70 := 40, START + 110 := 50, START + 160 := 40,
        START + 200 := LENGTH - 200]
  }

  function Blocks(): Heap {
    Heap(START, END, MAX, Sizes(), {}, [])
  }

  /** The same after the first and the fourth block are freed. */
  function Sample(): Heap {
    Heap(START, END, MAX, Sizes(), {START, START + 110}, [START, START + 110])
  }

  function HoleAt(sizes: Chunks, a: int): Heap {
    Heap(START, END, MAX, sizes, {a}, [a])
  }

  lemma BlocksReachable()
    ensures Reachable(Blocks(), true)
  {
    hide Reachable, HoleAt;
    ReachableFresh();
    assert Fresh() == HoleAt(map[START := LENGTH], START) by { hide *; FreshIs(); }
    Split(map[START := LENGTH], START, 30, map[START := 30, START + 30 := LENGTH - 30]);
    Split(map[START := 30, START + 30 := LENGTH - 30], START + 30, 40,
          map[START := 30, START + 30 := 40, START + 70 := LENGTH - 70]);
    Split(map[START := 30, START + 30 := 40, START + 70 := LENGTH - 70], START + 70, 40,
          map[START := 30, START + 30 := 40, START + 70 := 40, START + 110 := LENGTH - 110]);
    Split(map[START := 30, START + 30 := 40, START + 70 := 40, START + 110 := LENGTH - 110], START + 110, 50,
          map[START := 30, START + 30 := 40, START + 70 := 40, START + 110 := 50, START + 160 := LENGTH - 160]);
    Split(map[START := 30, START + 30 := 40, START + 70 := 40, START + 110 := 50, START + 160 := LENGTH - 160],
          START + 160, 40,
          Sizes());
    TakeAll(Sizes(), START + 200);
  }

  lemma FreshIs()
    ensures Fresh() == HoleAt(map[START := LENGTH], START)
  {
  }

  lemma Split(c: Chunks, a: int, n: int, c': Chunks)
    requires Reachable(HoleAt(c, a), true) && TAGS <= n && n + TAGS <= SizeOf(c, a)
    requires c' == c[a := n][a + n := c[a] - n]
    ensures Reachable(HoleAt(c', a + n), true)
  {
    hide Reachable, Inv, AllocReady, Alloc;
    ReachableValid(HoleAt(c, a), true);
    PlacedBounds(HoleAt(c, a));
    HoleBounds(HoleAt(c, a), 0);
    SplitsOnly(HoleAt(c, a), a, n);
    AllocCalled(HoleAt(c, a), n, false);
  }

  lemma TakeAll(c: Chunks, a: int)
    requires Reachable(HoleAt(c, a), true)
    ensures Reachable(Heap(START, END, MAX, c, {}, []), true)
  {
    hide Reachable, Inv, AllocReady, Alloc;
    ReachableValid(HoleAt(c, a), true);
    TakesOnly(HoleAt(c, a), a);
    AllocCalled(HoleAt(c, a), SizeOf(c, a), false);
  }

  /** Six allocs and two frees lead from the fresh heap to the sample. */
  lemma SampleReachable()
    ensures Reachable(Sample(), true) && Inv(Sample()) && SortedBySize(Sample())
  {
    hide Reachable, Inv, FreeReady, Freed, BlockAt;
    BlocksReachable();
    FreesFirst();
    FreesFourth();
    ReachableValid(Sample(), true);
  }

  lemma FreesFirst()
    requires Reachable(Blocks(), true)
    ensures Reachable(HoleAt(Sizes(), START), true)
  {
    hide Reachable, Inv, FreeReady, Freed, IndexInsert;
    ReachableValid(Blocks(), true);
    FreesAlone(Blocks(), START);
    InsertedFirst(START, Sizes());
    assert {} + {START} == {START};
    FreeCalled(Blocks(), START);
  }

  lemma InsertedFirst(a: int, c: Chunks)
    ensures IndexInsert([], a, c) == [a]
  {
  }

  lemma InsertedSecond(a: int, b: int, c: Chunks)
    requires SizeOf(c, a) < SizeOf(c, b)
    ensures IndexInsert([a], b, c) == [a, b]
  {
    assert Slot([a], b, SizeLess(c), 1) == 1;
  }

  lemma FreesFourth()
    requires Reachable(HoleAt(Sizes(), START), true)
    ensures Reachable(Sample(), true)
  {
    hide Reachable, Inv, FreeReady, Freed, IndexInsert;
    var h := HoleAt(Sizes(), START);
    ReachableValid(h, true);
    FreesAlone(h, START + 110);
    InsertedSecond(START, START + 110, Sizes());
    assert {START} + {START + 110} == {START, START + 110};
    FreeCalled(h, START + 110);
  }

  // ---------------------------------------------------------------- where the source goes wrong on it

  /** Its endmost hole does not abut its end, so a request that no hole fits breaks it. */
  lemma SampleGrowth()
    ensures var h := Sample();
      Reachable(h, true) && Search(h, 200, false, 0) == |h.index| && ExpandAsserts(h, 200) && !Inv(Grown(h, 200))
  {
    hide Reachable, Inv, Grown;
    SampleReachable();
    var h := Sample();
    assert Search(h, 200, false, 2) == 2;
    assert Search(h, 200, false, 1) == 2;
    assert h.index == h.index[..1] + [START + 110];
    assert EndHole(h) == START + 110;
    WrapSmall(LENGTH + 200);
    WrapSmall(END + 200);
    GrowthExact(h, 200);
  }

  /** Freeing its block of 40 bytes before the second hole leaves a stale footer, as the source is written. */
  lemma SampleStale()
    ensures var h := Sample(); var a := START + 70;
      Reachable(h, true) && BlockAt(h, a) && FreeReady(h, a) && GoesStale(h, a)
  {
    hide Reachable;
    SampleReachable();
  }

  /** Freeing its block behind the first hole enlarges that hole in place: the index is no longer sorted, and the next
      search returns a hole of 70 bytes for a request of 45 although one of 50 is free. */
  lemma SampleUnsorted()
    ensures var h := Sample(); var a := START + 30;
      Reachable(h, true) && BlockAt(h, a) && FreeReady(h, a) && !SortedBySize(Freed(h, a))
    ensures var f := Freed(Sample(), START + 30); var k := Search(f, 45, false, 0);
      k < |f.index| && f.index[k] == START && f.sizes[START] == 70 && START + 110 in f.holes
        && f.sizes[START + 110] == 50
  {
    SampleMerge();
    hide Inv, MergedLo, MergedHi, MergesLeft, MergesRight, Reachable;
    SampleReachable();
    var f := Freed(Sample(), START + 30);
    WrapSmall(70);
    assert f.index == [START, START + 110];
    assert f.sizes[START] == 70 && f.sizes[START + 110] == 50;
    assert SizeLess(f.sizes)(f.index[1], f.index[0]);
  }

  lemma SampleMerge()
    ensures var h := Sample(); var a := START + 30;
      MergesLeft(h, a) && !MergesRight(h, a) && MergedLo(h, a) == START && MergedHi(h, a) == START + 70
  {
    SampleReachable();
    hide Coalesced, Indexed, Reachable;
    assert START in Sample().sizes && START + Sample().sizes[START] == START + 30;
  }

  // ---------------------------------------------------------------- contraction

  /** A block of HEAP_MIN_SIZE bytes and a block up to the end. */
  function Full(): Heap {
    Heap(START, END, MAX, map[START := HEAP_MIN_SIZE, START + HEAP_MIN_SIZE := LENGTH - HEAP_MIN_SIZE], {}, [])
  }

  /** Freeing the last block of the heap contracts it to HEAP_MIN_SIZE bytes, which leaves nothing of the block. */
  lemma SampleShrink()
    ensures var h := Full(); var a := START + HEAP_MIN_SIZE;
      Reachable(h, true) && BlockAt(h, a) && MergedHi(h, a) == h.end && !GoesStale(h, a) && !Inv(Freed(h, a))
  {
    hide Reachable, HoleAt, Freed;
    var h, a := Full(), START + HEAP_MIN_SIZE;
    ReachableFresh();
    assert Fresh() == HoleAt(map[START := LENGTH], START) by { hide *; FreshIs(); }
    Split(map[START := LENGTH], START, HEAP_MIN_SIZE, h.sizes);
    TakeAll(h.sizes, a);
    ReachableValid(h, true);
    hide Inv, MergesLeft, MergesRight, MergedLo, MergedHi;
    AloneBounds(h, a);
    ShrinkExact(h, a);
  }
}
