/** Runs of alloc_frame and free_frame: which frames the pages hold. */
module FrameRuns {
  import opened Machine
  import opened Frames

  /** used: the set bits; held: the frame number of every page whose frame field is not 0. */
  datatype PageFrames = Holding(used: set<int>, held: map<int, int>)

  datatype Event = AllocFor(page: int) | FreeOf(page: int)

  /** One call, for a bitmap of limit frames; asMeant selects the address that free_frame should pass on. */
  ghost predicate Step(s: PageFrames, e: Event, s': PageFrames, limit: int, asMeant: bool) {
    match e
    case AllocFor(p) =>
      if p in s.held then s' == s
      else
        var f := LeastFree(s.used, 0, limit);
        f.Some? && s' == Holding(s.used + {f.value}, if f.value == 0 then s.held else s.held[p := f.value])
    case FreeOf(p) =>
      if p !in s.held then s' == s
      else s' == Holding(s.used - {if asMeant then s.held[p] else s.held[p] / 0x1000}, s.held - {p})
  }

  /** The frames in the frame fields of the pages. */
  ghost function HeldBy(pages: map<int, Page>): map<int, int> {
    map p | p in pages && pages[p].frame != 0 :: pages[p].frame
  }

  lemma HeldAfter(pages: map<int, Page>, p: int, page: Page)
    requires p in pages
    ensures p in HeldBy(pages) <==> pages[p].frame != 0
    ensures p in HeldBy(pages) ==> HeldBy(pages)[p] == pages[p].frame
    ensures HeldBy(pages[p := page]) == if page.frame == 0 then HeldBy(pages) - {p} else HeldBy(pages)[p := page.frame]
    ensures page.frame == pages[p].frame ==> HeldBy(pages[p := page]) == HeldBy(pages)
  {
  }

  /** Pages and the bitmap, changed by alloc_frame and free_frame only. */
  class FramePool {
    const bitmap: FrameBitmap
    const asMeant: bool
    var pages: map<int, Page>

    ghost predicate Valid()
      reads this
    {
      && bitmap.Valid()
      && forall p :: p in pages ==> 0 <= pages[p].frame && (pages[p].frame != 0 ==> pages[p].frame < bitmap.Limit())
    }

    ghost function State(): PageFrames
      reads this, bitmap.frames
    {
      Holding(bitmap.Used(), HeldBy(pages))
    }

    constructor (nframes: nat, pages: map<int, Page>, asMeant: bool)
      requires forall p :: p in pages ==> pages[p].frame == 0
      ensures Valid() && fresh(bitmap.frames) && this.asMeant == asMeant && this.pages == pages
      ensures State() == Holding({}, map[])
    {
      bitmap := new FrameBitmap(nframes);
      this.pages, this.asMeant := pages, asMeant;
      new;
      assert forall p :: p in this.pages ==> this.pages[p].frame == 0;
      assert State().held.Keys == {};
    }

    method AllocPage(p: int, isKernel: bool, isWriteable: bool)
      requires Valid() && p in pages
      requires pages[p].frame == 0 ==> LeastFree(bitmap.Used(), 0, bitmap.Limit()).Some?
      modifies this`pages, bitmap.frames
      ensures Valid() && pages.Keys == old(pages.Keys)
      ensures Step(old(State()), AllocFor(p), State(), bitmap.Limit(), asMeant)
    {
      hide HeldBy;
      var page := bitmap.AllocFrame(pages[p], isKernel, isWriteable);
      HeldAfter(pages, p, page);
      pages := pages[p := page];
    }

    method FreePage(p: int)
      requires Valid() && p in pages
      modifies this`pages, bitmap.frames
      ensures Valid() && pages.Keys == old(pages.Keys)
      ensures Step(old(State()), FreeOf(p), State(), bitmap.Limit(), asMeant)
    {
      hide HeldBy;
      var page := bitmap.FreeFrame(pages[p], asMeant);
      HeldAfter(pages, p, page);
      pages := pages[p := page];
    }
  }

  ghost predicate Run(ss: seq<PageFrames>, es: seq<Event>, limit: int, asMeant: bool) {
    |ss| == |es| + 1 && forall i :: 0 <= i < |es| ==> Step(ss[i], es[i], ss[i + 1], limit, asMeant)
  }

  /** No frame is held by two pages. */
  ghost predicate Unshared(held: map<int, int>) {
    forall p, q :: p in held && q in held && held[p] == held[q] ==> p == q
  }

  ghost predicate Consistent(s: PageFrames, limit: int) {
    Unshared(s.held) && forall p :: p in s.held ==> 0 < s.held[p] < limit && s.held[p] in s.used
  }

  lemma StepConsistent(s: PageFrames, e: Event, s': PageFrames, limit: int, asMeant: bool)
    requires Consistent(s, limit) && Step(s, e, s', limit, asMeant) && (asMeant || limit <= 0x1000)
    ensures Consistent(s', limit)
  {
    match e
    case AllocFor(p) =>
    case FreeOf(p) =>
      if p in s.held && !asMeant {
        assert s.held[p] / 0x1000 == 0;
      }
  }

  /** As written, with at most 0x1000 frames, no frame other than 0 is ever held by two pages. */
  lemma {:induction false} NoSharing(ss: seq<PageFrames>, es: seq<Event>, limit: int, asMeant: bool, k: nat)
    requires Run(ss, es, limit, asMeant) && k < |ss| && (asMeant || limit <= 0x1000) && ss[0].held == map[]
    ensures Consistent(ss[k], limit)
  {
    if k > 0 {
      NoSharing(ss, es, limit, asMeant, k - 1);
      StepConsistent(ss[k - 1], es[k - 1], ss[k], limit, asMeant);
    }
  }

  /** As meant, and with frame 0 reserved, the set bits are exactly the held frames and frame 0. */
  lemma {:induction false} BitsAreHeldFrames(ss: seq<PageFrames>, es: seq<Event>, limit: int, k: nat)
    requires Run(ss, es, limit, true) && k < |ss| && ss[0] == Holding({0}, map[])
    ensures ss[k].used == ss[k].held.Values + {0}
  {
    if k > 0 {
      BitsAreHeldFrames(ss, es, limit, k - 1);
      NoSharing(ss, es, limit, true, k - 1);
      StepBits(ss[k - 1], es[k - 1], ss[k], limit);
    }
  }

  ghost predicate BitsHeld(s: PageFrames) {
    s.used == s.held.Values + {0}
  }

  /** The event takes a frame from a page. */
  predicate TakesFrame(s: PageFrames, e: Event) {
    e.FreeOf? && e.page in s.held
  }

  /** As written, for any number of frames, they are so exactly until the first page with a frame is freed. */
  lemma {:induction false} BitsAsWritten(ss: seq<PageFrames>, es: seq<Event>, limit: int, k: nat)
    requires Run(ss, es, limit, false) && k < |ss| && ss[0] == Holding({0}, map[])
    ensures (forall i :: 0 <= i <= k ==> BitsHeld(ss[i])) <==> (forall i :: 0 <= i < k ==> !TakesFrame(ss[i], es[i]))
    ensures (forall i :: 0 <= i < k ==> !TakesFrame(ss[i], es[i])) ==> Consistent(ss[k], limit)
  {
    hide Step, BitsHeld, TakesFrame, Consistent;
    if k == 0 {
      NothingHeld(limit);
    } else {
      BitsAsWritten(ss, es, limit, k - 1);
      if forall i :: 0 <= i < k - 1 ==> !TakesFrame(ss[i], es[i]) {
        assert BitsHeld(ss[k - 1]);
        StepAsWritten(ss[k - 1], es[k - 1], ss[k], limit);
      }
    }
  }

  lemma NothingHeld(limit: int)
    ensures BitsHeld(Holding({0}, map[])) && Consistent(Holding({0}, map[]), limit)
  {
  }

  lemma StepAsWritten(s: PageFrames, e: Event, s': PageFrames, limit: int)
    requires Step(s, e, s', limit, false) && Consistent(s, limit) && BitsHeld(s)
    ensures BitsHeld(s') <==> !TakesFrame(s, e)
    ensures !TakesFrame(s, e) ==> Consistent(s', limit)
  {
    if TakesFrame(s, e) {
      var f := s.held[e.page];
      assert f / 0x1000 != f;
      assert f in s'.used && f != 0;
      assert f !in s'.held.Values by {
        forall q | q in s'.held ensures s'.held[q] == s.held[q] != f { }
      }
    } else {
      assert Step(s, e, s', limit, true);
      StepBits(s, e, s', limit);
      StepConsistent(s, e, s', limit, true);
    }
  }

  /** As written, with at most 0x1000 frames, a frame other than 0 whose bit is set is never handed out again. */
  lemma {:induction false} NeverReused(ss: seq<PageFrames>, es: seq<Event>, limit: int, j: nat, k: nat, f: int)
    requires Run(ss, es, limit, false) && limit <= 0x1000 && j <= k < |ss| && ss[0].held == map[] && f in ss[j].used
    requires f != 0
    ensures f in ss[k].used
    ensures forall i :: j <= i < k && es[i].AllocFor? && es[i].page !in ss[i].held ==>
      LeastFree(ss[i].used, 0, limit).Some? && LeastFree(ss[i].used, 0, limit).value != f
    decreases k
  {
    if j < k {
      NeverReused(ss, es, limit, j, k - 1, f);
      NoSharing(ss, es, limit, false, k - 1);
      assert Step(ss[k - 1], es[k - 1], ss[k], limit, false);
    }
  }

  lemma StepBits(s: PageFrames, e: Event, s': PageFrames, limit: int)
    requires Step(s, e, s', limit, true) && Consistent(s, limit) && s.used == s.held.Values + {0}
    ensures s'.used == s'.held.Values + {0}
  {
    match e
    case AllocFor(p) =>
      if p !in s.held {
        var f := LeastFree(s.used, 0, limit).value;
        assert s'.held.Values == s.held.Values + {f} by {
          assert s'.held[p] == f;
          forall q | q in s.held ensures s'.held[q] == s.held[q] { }
        }
      }
    case FreeOf(p) =>
      if p in s.held {
        assert s'.held.Values == s.held.Values - {s.held[p]} by {
          forall q | q in s.held && q != p ensures s'.held[q] == s.held[q] && s.held[q] != s.held[p] { }
        }
      }
  }

  // ---------------------------------------------------------------- more than 0x1000 frames

  /** The state after pages 0 to n - 1 have got a frame each, in order. */
  ghost function Filled(n: nat): PageFrames {
    if n == 0 then Holding({}, map[])
    else
      var before := Filled(n - 1);
      Holding(before.used + {n - 1}, if n == 1 then before.held else before.held[n - 1 := n - 1])
  }

  lemma {:induction false} FilledIs(n: nat)
    ensures forall f :: f in Filled(n).used <==> 0 <= f < n
    ensures forall p :: p in Filled(n).held <==> 1 <= p < n
    ensures forall p :: p in Filled(n).held ==> Filled(n).held[p] == p
  {
    if n > 0 {
      FilledIs(n - 1);
    }
  }

  ghost function FilledRun(n: nat): seq<PageFrames> {
    seq(n + 1, i requires 0 <= i => Filled(i))
  }

  ghost function AllocEvents(n: nat): seq<Event> {
    seq(n, i => AllocFor(i))
  }

  lemma FillStep(n: nat, limit: int)
    requires n < limit
    ensures Step(Filled(n), AllocFor(n), Filled(n + 1), limit, false)
  {
    FilledIs(n);
    SkipUsed(Filled(n).used, 0, n, limit);
  }

  lemma FillRun(n: nat, limit: int)
    requires n <= limit
    ensures Run(FilledRun(n), AllocEvents(n), limit, false)
  {
    forall i | 0 <= i < n ensures Step(FilledRun(n)[i], AllocEvents(n)[i], FilledRun(n)[i + 1], limit, false) {
      FillStep(i, limit);
    }
  }

  /** As written, with more than 0x1000 frames, some run lets two pages hold the same frame: freeing frame
      0x1000 clears the bit of frame 1. */
  lemma Sharing(limit: int)
    requires limit > 0x1000
    ensures exists ss: seq<PageFrames>, es: seq<Event> ::
      Run(ss, es, limit, false) && ss[0] == Holding({}, map[]) && !Unshared(ss[|ss| - 1].held)
  {
    var n: nat :| n == 0x1001;
    SharingAfter(n, limit);
  }

  lemma SharingAfter(n: nat, limit: int)
    requires limit > 0x1000 && n == 0x1001
    ensures exists ss: seq<PageFrames>, es: seq<Event> ::
      Run(ss, es, limit, false) && ss[0] == Holding({}, map[]) && !Unshared(ss[|ss| - 1].held)
  {
    hide Run, Filled;
    FillRun(n, limit);
    FilledIs(n);
    EmptyAtFirst();
    var full := Filled(n);
    var freed := Holding(full.used - {1}, full.held - {0x1000});
    var last := Holding(freed.used + {1}, freed.held[0x1000 := 1]);
    SkipUsed(freed.used, 0, 1, limit);
    SharingRun(n, limit, freed, last);
    var ss := FilledRun(n) + [freed, last];
    var es := AllocEvents(n) + [FreeOf(0x1000), AllocFor(0x1000)];
    assert ss[|ss| - 1].held[1] == ss[|ss| - 1].held[0x1000];
    assert Run(ss, es, limit, false) && ss[0] == Filled(0);
  }

  lemma EmptyAtFirst()
    ensures Filled(0) == Holding({}, map[])
  {
  }

  lemma SharingRun(n: nat, limit: int, freed: PageFrames, last: PageFrames)
    requires Run(FilledRun(n), AllocEvents(n), limit, false)
    requires Step(Filled(n), FreeOf(0x1000), freed, limit, false) && Step(freed, AllocFor(0x1000), last, limit, false)
    ensures Run(FilledRun(n) + [freed, last], AllocEvents(n) + [FreeOf(0x1000), AllocFor(0x1000)], limit, false)
  {
    hide Step, Filled, FilledRun, AllocEvents;
    RunLengths(n);
    Extended(FilledRun(n), AllocEvents(n), FreeOf(0x1000), freed, limit, false);
    Extended(FilledRun(n) + [freed], AllocEvents(n) + [FreeOf(0x1000)], AllocFor(0x1000), last, limit, false);
    assert FilledRun(n) + [freed] + [last] == FilledRun(n) + [freed, last];
    assert AllocEvents(n) + [FreeOf(0x1000)] + [AllocFor(0x1000)] ==
      AllocEvents(n) + [FreeOf(0x1000), AllocFor(0x1000)];
  }

  lemma RunLengths(n: nat)
    ensures |FilledRun(n)| == n + 1 && FilledRun(n)[n] == Filled(n) && |AllocEvents(n)| == n
  {
  }

  /** A run may be continued by a step. */
  lemma Extended(ss: seq<PageFrames>, es: seq<Event>, e: Event, s: PageFrames, limit: int, asMeant: bool)
    requires Run(ss, es, limit, asMeant) && Step(ss[|ss| - 1], e, s, limit, asMeant)
    ensures Run(ss + [s], es + [e], limit, asMeant)
  {
    hide Step;
    var ss', es' := ss + [s], es + [e];
    forall i | 0 <= i < |es'| ensures Step(ss'[i], es'[i], ss'[i + 1], limit, asMeant) {
      if i < |es| {
        assert Step(ss[i], es[i], ss[i + 1], limit, asMeant);
      }
    }
  }
}
