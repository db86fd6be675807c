/** Lists of calls performed on the heap in memory are runs. */
module HeapCalls {
  import opened Machine
  import opened OrderedArrays
  import opened Tiling
  import opened HeapSpec
  import opened HeapInvariant
  import opened HeapMemory
  import opened HeapSteps
  import opened HeapWrites
  import opened HeapRuns
  import opened KernelHeap

  datatype Request = AllocRequest(size: int, align: bool) | FreeRequest(p: int)

  /** The condition of a request on the chunks; without the rewritten footer, a free must not leave a stale one. */
  ghost predicate RequestFits(h: Heap, r: Request, rewrite: bool) {
    && |h.index| < HEAP_INDEX_SIZE
    && match r
       case AllocRequest(size, align) => 0 <= size && size + TAGS < TWO32 && AllocReady(h, size + TAGS, align)
       case FreeRequest(p) =>
         p == 0 || (BlockAt(h, p - HEADER) && FreeReady(h, p - HEADER) && (rewrite || !GoesStale(h, p - HEADER)))
  }

  /** The event of a run that a request becomes. */
  predicate Becomes(r: Request, e: Event) {
    match r
    case AllocRequest(size, align) => e.AllocCall? && e.size == size && e.align == align
    case FreeRequest(p) => e == if p == 0 then Elsewhere else FreeCall(p)
  }

  /** The heap after a request; an alloc that stops at an assertion has none. */
  ghost function After(h: Heap, r: Request, rewrite: bool): Option<Heap>
    requires RequestFits(h, r, rewrite)
  {
    match r
    case AllocRequest(size, align) =>
      var a := Alloc(h, size + TAGS, align);
      if a.Allocated? then Some(a.heap) else None
    case FreeRequest(p) => Some(if p == 0 then h else Freed(h, p - HEADER))
  }

  /** Every request meets its condition when its turn comes. */
  ghost predicate CallsFit(h: Heap, rs: seq<Request>, rewrite: bool)
    decreases |rs|
  {
    rs != [] ==>
      && RequestFits(h, rs[0], rewrite)
      && var g := After(h, rs[0], rewrite); g.Some? ==> CallsFit(g.value, rs[1..], rewrite)
  }

  lemma StepAfter(c: Config, r: Request, e: Event, c': Config, rewrite: bool)
    requires RequestFits(c.heap, r, rewrite) && Step(c, e, c') && Becomes(r, e)
    ensures After(c.heap, r, rewrite) == Some(c'.heap)
  {
    hide AllocReady, Alloc, FreeReady, BlockAt, Freed, Kept, Encodes;
  }

  /** What the two words that free inspects on the outer sides of the heap must not be. */
  method Unguarded(heap: KHeap) returns (r: bool)
    requires heap.Valid()
    ensures r == !Guarded(heap.ram[..], heap.State())
  {
    PlacedBounds(heap.State());
    hide Inv, Encodes, Word;
    var below := ReadWord(heap.ram, heap.startAddress - 8);
    var above := ReadWord(heap.ram, heap.endAddress);
    r := below == HEAP_MAGIC || above == HEAP_MAGIC;
  }

  /** One call. It is not made if free would be misled by the words around the heap. */
  method PerformOne(heap: KHeap, r: Request, rewrite: bool) returns (made: bool, panic: bool, ghost e: Event)
    requires heap.Valid() && RequestFits(heap.State(), r, rewrite)
    modifies heap.ram, heap`endAddress, heap`sizes, heap`holes, heap.index`size, heap.index.cells
    ensures made ==> heap.Valid() && Becomes(r, e)
    ensures made ==> Step(Config(old(heap.ram[..]), old(heap.State())), e, Config(heap.ram[..], heap.State()))
    ensures panic ==> !made && After(old(heap.State()), r, rewrite).None?
    ensures !made && !panic ==> heap.Valid() && heap.ram[..] == old(heap.ram[..]) && heap.State() == old(heap.State())
    ensures !made && !panic ==> r.FreeRequest? && r.p != 0 && !Guarded(heap.ram[..], heap.State())
  {
    hide Inv, Encodes, AllocStep, FreeStep, Kept, Guarded, GoesStale, Step, After;
    made, panic, e := true, false, Elsewhere;
    ghost var c := Config(heap.ram[..], heap.State());
    match r
    case AllocRequest(size, align) =>
      NoHeapAfter(c.heap, size, align, rewrite);
      var p := heap.Alloc(size, align);
      if p.None? {
        made, panic := false, true;
      } else {
        e := AllocCall(size, align, p.value);
        AllocIsStep(c, size, align, p.value, Config(heap.ram[..], heap.State()));
      }
    case FreeRequest(p) =>
      if p != 0 {
        made := PerformFree(heap, p, rewrite);
        e := FreeCall(p);
        FreeIsStep(c, p, Config(heap.ram[..], heap.State()));
      } else {
        NothingIsStep(c);
      }
  }

  method PerformFree(heap: KHeap, p: int, rewrite: bool) returns (made: bool)
    requires heap.Valid() && p != 0 && RequestFits(heap.State(), FreeRequest(p), rewrite)
    modifies heap.ram, heap`endAddress, heap`sizes, heap`holes, heap.index`size, heap.index.cells
    ensures heap.Valid() && made == Guarded(old(heap.ram[..]), old(heap.State()))
    ensures made ==> FreeStep(old(heap.ram[..]), old(heap.State()), p, heap.ram[..], heap.State())
    ensures !made ==> heap.ram[..] == old(heap.ram[..]) && heap.State() == old(heap.State())
  {
    hide Inv, Encodes, FreeStep, FreeDone, Guarded, GoesStale, BlockAt, FreeReady;
    var unguarded := Unguarded(heap);
    if unguarded {
      return false;
    }
    ghost var h, m := heap.State(), heap.ram[..];
    heap.Free(p, rewrite);
    FreeDoneStep(m, h, p, rewrite, heap.ram[..], heap.State());
    return true;
  }

  lemma NoHeapAfter(h: Heap, size: int, align: bool, rewrite: bool)
    requires RequestFits(h, AllocRequest(size, align), rewrite)
    ensures After(h, AllocRequest(size, align), rewrite).None? <==> Alloc(h, size + TAGS, align).Panic?
  {
    hide AllocReady, Alloc;
  }

  lemma AllocIsStep(c: Config, size: int, align: bool, p: int, c': Config)
    ensures Step(c, AllocCall(size, align, p), c') <==> AllocStep(c.mem, c.heap, size, align, c'.mem, c'.heap, p)
  {
    hide AllocStep;
  }

  lemma FreeIsStep(c: Config, p: int, c': Config)
    ensures Step(c, FreeCall(p), c') <==> FreeStep(c.mem, c.heap, p, c'.mem, c'.heap)
  {
    hide FreeStep;
  }

  lemma NothingIsStep(c: Config)
    ensures Step(c, Elsewhere, c)
  {
  }

  lemma Extended(cs: seq<Config>, es: seq<Event>, e: Event, c: Config)
    requires Run(cs, es) && Step(cs[|cs| - 1], e, c)
    ensures Run(cs + [c], es + [e])
  {
    hide Step;
    var cs', es' := cs + [c], es + [e];
    forall i | 0 <= i < |es'| ensures Step(cs'[i], es'[i], cs'[i + 1]) {
      if i < |es| {
        assert Step(cs[i], es[i], cs[i + 1]);
      }
    }
  }

  /** The calls change no byte of a payload that is live from the start and that none of them frees. */
  lemma CallsKeepPayload(cs: seq<Config>, es: seq<Event>, rs: seq<Request>, p: int)
    requires Run(cs, es) && Good(cs[0]) && |es| <= |rs| && (forall i :: 0 <= i < |es| ==> Becomes(rs[i], es[i]))
    requires Live(cs[0].heap, p) && forall i :: 0 <= i < |es| ==> rs[i] != FreeRequest(p)
    ensures SamePayload(cs[0], cs[|es|], p)
  {
    hide Run, Good, SamePayload;
    forall k | 0 <= k < |es| ensures es[k] != FreeCall(p) && es[k] != Write(p) {
      assert Becomes(rs[k], es[k]);
    }
    assert |cs| == |es| + 1 by { hide *; RunLength(cs, es); }
    RunKeepsPayload(cs, es, 0, |es|, p);
  }

  lemma RunLength(cs: seq<Config>, es: seq<Event>)
    requires Run(cs, es)
    ensures |cs| == |es| + 1
  {
  }

  /**
   * Performs the requests in order and yields the run they make. It stops early only if an alloc stops at an
   * assertion of expand, or before a free that the words around the heap would mislead.
   */
  method Perform(heap: KHeap, rs: seq<Request>, rewrite: bool)
    returns (n: nat, panic: bool, ghost cs: seq<Config>, ghost es: seq<Event>)
    requires heap.Valid() && CallsFit(heap.State(), rs, rewrite)
    modifies heap.ram, heap`endAddress, heap`sizes, heap`holes, heap.index`size, heap.index.cells
    ensures Run(cs, es) && cs[0] == Config(old(heap.ram[..]), old(heap.State())) && Good(cs[0])
    ensures n == |es| <= |rs| && forall i :: 0 <= i < n ==> Becomes(rs[i], es[i])
    ensures !panic ==> heap.Valid() && cs[n] == Config(heap.ram[..], heap.State())
    ensures panic ==> n < |rs| && RequestFits(cs[n].heap, rs[n], rewrite) && After(cs[n].heap, rs[n], rewrite).None?
    ensures n < |rs| && !panic ==> rs[n].FreeRequest? && rs[n].p != 0 && !Guarded(cs[n].mem, cs[n].heap)
  {
    hide Inv, Encodes, RequestFits, After, Becomes, Step, Guarded;
    n, panic, cs, es := 0, false, [Config(heap.ram[..], heap.State())], [];
    while n < |rs|
      invariant 0 <= n == |es| <= |rs| && !panic && heap.Valid() && Run(cs, es)
      invariant cs[0] == Config(old(heap.ram[..]), old(heap.State())) && cs[n] == Config(heap.ram[..], heap.State())
      invariant CallsFit(heap.State(), rs[n..], rewrite) && forall i :: 0 <= i < n ==> Becomes(rs[i], es[i])
    {
      ghost var c := cs[n];
      var made, stopped, e := PerformOne(heap, rs[n], rewrite);
      panic := stopped;
      if !made {
        return;
      }
      ghost var c' := Config(heap.ram[..], heap.State());
      StepAfter(c, rs[n], e, c', rewrite);
      Extended(cs, es, e, c');
      assert rs[n..][1..] == rs[n + 1..];
      cs, es, n := cs + [c'], es + [e], n + 1;
    }
  }
}
