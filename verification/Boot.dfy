/** initialise_paging: the kernel maps itself, including the page tables that it builds while doing so. */
module Boot {
  import opened Machine
  import opened Frames
  import opened Bump
  import opened Paging

  const MEM_END: int := 0x100_0000
  const KHEAP_START: int := 0xC000_0000
  const KHEAP_INITIAL_SIZE: int := 0x10_0000
  const HEAP_TABLE: int := 768          // the table of the pages from KHEAP_START on

  /** The number of tables that are still missing. */
  ghost function Absent(tables: seq<int>): nat {
    if tables == [] then 0 else (if tables[0] == 0 then 1 else 0) + Absent(tables[1..])
  }

  lemma {:induction false} AbsentUpdate(tables: seq<int>, k: nat, base: int)
    requires k < |tables| && tables[k] == 0 && base != 0
    ensures Absent(tables[k := base]) == Absent(tables) - 1
  {
    var t := tables[k := base];
    if k == 0 {
      assert t[1..] == tables[1..];
    } else {
      assert t[1..] == tables[1..][k - 1 := base];
      AbsentUpdate(tables[1..], k - 1, base);
    }
  }

  /** The existing tables are the first ones up to low and, if heap is set, the one of the heap. */
  ghost predicate HasExactly(d: Directory, low: int, heap: bool) {
    |d.tables| == TABLES && forall k :: 0 <= k < TABLES ==> (d.tables[k] != 0 <==> k < low || (heap && k == HEAP_TABLE))
  }

  lemma OneMoreTable(d: Directory, d': Directory, low: int, heap: bool, k: int, base: int)
    requires HasExactly(d, low, heap) && 0 <= k < TABLES && d'.tables == d.tables[k := base] && base != 0
    ensures k == low ==> HasExactly(d', low + 1, heap)
    ensures k == HEAP_TABLE ==> HasExactly(d', low, true)
  {
  }

  /** The number of tables that cover the addresses below i. */
  function Covering(i: int): int {
    if i <= 0 then 0 else (i - PAGE) / 0x40_0000 + 1
  }

  /** Pages below n are mapped to themselves, heap pages below m to the frames from base on, other pages not at all. */
  ghost predicate Mapped(d: Directory, n: int, base: int, m: int) {
    forall p :: PageAt(d, p) == MappedTo(p, n, base, m)
  }

  function MappedTo(p: int, n: int, base: int, m: int): Page {
    if 0 <= p < n then Page(true, false, true, p)
    else if KHEAP_START / PAGE <= p < m then Page(true, false, true, base + p - KHEAP_START / PAGE)
    else EMPTY_PAGE
  }

  ghost predicate UsedBelow(used: set<int>, n: int) {
    forall f :: f in used <==> 0 <= f < n
  }

  lemma NextFrame(used: set<int>, n: int, limit: int)
    requires UsedBelow(used, n) && 0 <= n < limit
    ensures LeastFree(used, 0, limit) == Some(n) && UsedBelow(used + {n}, n + 1)
  {
    SkipUsed(used, 0, n, limit);
  }

  /** The table that the next page of the identity map needs is there or is the first missing one. */
  lemma NextTable(i: int)
    requires 0 <= i <= 0xEF_F000 && i % PAGE == 0
    ensures var k := i / PAGE / ENTRIES;
      0 <= k < 4 && Covering(i + PAGE) == k + 1 && (Covering(i) == k || Covering(i) == k + 1)
  {
  }

  lemma TablePlace(at: int)
    requires PAGE <= at
    ensures var t := Place(at, true); t % PAGE == 0 && at <= t && After(at, Request(PAGE, true)) == t + PAGE
  {
    Aligned(at);
  }

  class PageSystem {
    const placement: Placement
    const frames: FrameBitmap
    const tables: array<int>
    const physical: array<int>
    var entries: map<int, Page>

    ghost function Dir(): Directory
      reads this, tables, physical
    {
      Directory(tables[..], physical[..], entries)
    }

    ghost predicate Valid()
      reads this, placement, tables, physical
    {
      && frames.Valid() && frames.nframes == MEM_END / PAGE
      && tables != physical && (frames.frames as object) !in {tables as object, physical as object}
      && PAGE <= placement.address < TWO32
      && DirectoryValid(Dir(), placement.address)
    }

    /** The allocations of initialise_paging up to the empty directory. */
    constructor (start: int)
      requires PAGE <= start && start + 0x1_0000 < TWO32
      ensures Valid() && fresh(placement) && fresh(frames.frames) && fresh(tables) && fresh(physical)
      ensures frames.Used() == {} && (forall p :: PageAt(Dir(), p) == EMPTY_PAGE)
      ensures placement.address ==
        After(After(start, Request(MEM_END / PAGE / 32, false)), Request(DIRECTORY_SIZE, true))
      ensures tables[..] == seq(TABLES, _ => 0)
      ensures frames.nframes == 4096 && placement.address == (start + 128) / 0x1000 * 0x1000 + 0x1000 + 8196
    {
      var p := new Placement(start);
      var f := p.Kmalloc(MEM_END / PAGE / 32, false);
      var d := p.Kmalloc(DIRECTORY_SIZE, true);
      placement := p;
      frames := new FrameBitmap(MEM_END / PAGE);
      tables := new int[TABLES](_ => 0);
      physical := new int[TABLES](_ => 0);
      entries := map[];
    }

    /** get_page: the address of the entry of the page, None for the null pointer. */
    method GetPage(address: int, make: bool) returns (r: Option<int>)
      requires Valid() && 0 <= address < TWO32
      requires make && tables[address / PAGE / ENTRIES] == 0 ==> After(placement.address, Request(PAGE, true)) < TWO32
      modifies this`entries, placement, tables, physical
      ensures Valid() && (forall p :: PageAt(Dir(), p) == old(PageAt(Dir(), p)))
      ensures r.Some? <==> make || old(tables[address / PAGE / ENTRIES]) != 0
      ensures r.Some? ==> HasTable(Dir(), address / PAGE) && r.value == EntryOf(Dir(), address / PAGE)
      ensures old(tables[address / PAGE / ENTRIES]) != 0 || !make ==>
        tables[..] == old(tables[..]) && placement.address == old(placement.address) && entries == old(entries)
      ensures old(tables[address / PAGE / ENTRIES]) == 0 && make ==>
        && placement.address == After(old(placement.address), Request(PAGE, true))
        && tables[..] == old(tables[..])[address / PAGE / ENTRIES := placement.address - PAGE]
    {
      hide Translate, Place, After, Wrap;
      TablePlace(placement.address);
      var page := address / PAGE;
      var table := page / 1024;
      if tables[table] != 0 {
        return Some(tables[table] + 4 * (page % 1024));
      } else if make {
        ghost var before, at := Dir(), placement.address;
        var tmp := placement.Kmalloc(PAGE, true);
        NewTable(before, at, page, tmp);
        tables[table] := tmp;
        entries := entries + Zeroed(tmp);
        physical[table] := tmp + 7;
        assert Dir() == WithTable(before, page, tmp);
        return Some(tables[table] + 4 * (page % 1024));
      } else {
        return None;
      }
    }

    /** alloc_frame on the page entry at e. */
    method AllocFrameAt(e: int, ghost page: int)
      requires Valid() && HasTable(Dir(), page) && e == EntryOf(Dir(), page)
      requires PageAt(Dir(), page).frame == 0 ==> LeastFree(frames.Used(), 0, frames.Limit()).Some?
      modifies this`entries, frames.frames
      ensures Valid() && HasTable(Dir(), page)
      ensures var p := old(PageAt(Dir(), page)); var f := LeastFree(old(frames.Used()), 0, frames.Limit());
        && (p.frame != 0 ==>
              frames.Used() == old(frames.Used()) && forall q :: PageAt(Dir(), q) == old(PageAt(Dir(), q)))
        && (p.frame == 0 ==> frames.Used() == old(frames.Used()) + {f.value})
        && (p.frame == 0 ==>
              forall q :: PageAt(Dir(), q) ==
                if q == page then Page(true, false, true, f.value) else old(PageAt(Dir(), q)))
    {
      hide DirectoryValid, TableValid;
      ghost var before := Dir();
      EntriesDistinct(before, placement.address, page, page);
      var entry := frames.AllocFrame(entries[e], false, false);
      EntryWritten(before, placement.address, page, entry);
      entries := entries[e := entry];
    }

    /** The first loop: creates the table of the heap pages; no frames yet. */
    method MakeHeapTables()
      requires Valid() && HasExactly(Dir(), 0, false)
      requires After(placement.address, Request(PAGE, true)) < TWO32
      modifies this`entries, placement, tables, physical
      ensures Valid() && (forall p :: PageAt(Dir(), p) == old(PageAt(Dir(), p)))
      ensures HasExactly(Dir(), 0, true) && placement.address == After(old(placement.address), Request(PAGE, true))
    {
      hide DirectoryValid, PageAt;
      var i := KHEAP_START;
      while i < KHEAP_START + KHEAP_INITIAL_SIZE
        invariant KHEAP_START <= i <= KHEAP_START + KHEAP_INITIAL_SIZE && i % PAGE == 0
        invariant Valid() && (forall p :: PageAt(Dir(), p) == old(PageAt(Dir(), p)))
        invariant HasExactly(Dir(), 0, i > KHEAP_START)
        invariant placement.address ==
          if i > KHEAP_START then After(old(placement.address), Request(PAGE, true)) else old(placement.address)
      {
        assert i / PAGE / ENTRIES == HEAP_TABLE;
        ghost var before := Dir();
        assert before.tables[HEAP_TABLE] == tables[HEAP_TABLE];
        var e := GetPage(i, true);
        if i == KHEAP_START {
          OneMoreTable(before, Dir(), 0, false, HEAP_TABLE, placement.address - PAGE);
        }
        i := i + PAGE;
      }
    }

    /** Pages below i are mapped to themselves, with just the tables that takes, and nothing else is mapped. */
    ghost predicate IdentityBelow(i: int, first: int)
      reads this, placement, tables, physical, frames.frames
    {
      && Valid() && 0 <= i && i % PAGE == 0
      && HasExactly(Dir(), Covering(i), true)
      && placement.address == first + 2 * PAGE * Covering(i)
      && Mapped(Dir(), i / PAGE, 0, 0) && UsedBelow(frames.Used(), i / PAGE)
    }

    /** The entry for the next page of the second loop; its table is created if it is missing. */
    method NextEntry(i: int, ghost first: int) returns (e: int)
      requires IdentityBelow(i, first) && i <= 0xEF_F000 && first % PAGE == 0 && 0 <= first
      requires first + 0x8000 <= 0xEF_F000
      modifies this`entries, placement, tables, physical
      ensures Valid() && HasTable(Dir(), i / PAGE) && e == EntryOf(Dir(), i / PAGE)
      ensures PageAt(Dir(), i / PAGE) == EMPTY_PAGE
      ensures HasExactly(Dir(), Covering(i + PAGE), true) && placement.address == first + 2 * PAGE * Covering(i + PAGE)
      ensures Mapped(Dir(), i / PAGE, 0, 0) && UsedBelow(frames.Used(), i / PAGE)
      ensures placement.address + 2 * PAGE * Absent(tables[..])
           <= old(placement.address + 2 * PAGE * Absent(tables[..]))
    {
      hide DirectoryValid, Mapped, HasExactly, UsedBelow, UsedFrames, LeastFree, PageAt, Covering, EntryOf, HasTable;
      NextTable(i);
      var page := i / PAGE;
      ghost var before, low := Dir(), Covering(i);
      TableThere(before, low, page / ENTRIES);
      assert before.tables[page / ENTRIES] == tables[page / ENTRIES];
      CoveringBound(i);
      var entry := GetPage(i, true);
      e := entry.value;
      if before.tables[page / ENTRIES] == 0 {
        OneMoreTable(before, Dir(), low, true, page / ENTRIES, placement.address - PAGE);
        AbsentUpdate(before.tables, page / ENTRIES, placement.address - PAGE);
      } else {
        SameTables(before, Dir(), low);
      }
      SamePages(before, Dir(), page, 0, 0);
    }

    /** The body of the second loop. */
    method MapPage(i: int, ghost first: int)
      requires IdentityBelow(i, first) && i <= 0xEF_F000 && first % PAGE == 0 && 0 <= first
      requires first + 0x8000 <= 0xEF_F000
      modifies this`entries, placement, tables, physical, frames.frames
      ensures IdentityBelow(i + PAGE, first)
      ensures placement.address + 2 * PAGE * Absent(tables[..])
           <= old(placement.address + 2 * PAGE * Absent(tables[..]))
    {
      hide DirectoryValid, Mapped, HasExactly, UsedBelow, UsedFrames, LeastFree, PageAt, Covering, EntryOf, HasTable;
      var e := NextEntry(i, first);
      ghost var page, middle := i / PAGE, Dir();
      NextFrame(frames.Used(), page, frames.Limit());
      AllocFrameAt(e, page);
      MappedNext(middle, Dir(), page);
      SameTables(middle, Dir(), Covering(i + PAGE));
    }

    /**
     * The second loop: maps every page below the placement address, plus one, to the frame of the same number. Its
     * bound moves, because a missing table is allocated at the placement address.
     */
    method MapIdentity() returns (end: int)
      requires Valid() && HasExactly(Dir(), 0, true) && placement.address % PAGE == 0
      requires placement.address + 0x8000 <= 0xEF_F000
      requires Mapped(Dir(), 0, 0, 0) && frames.Used() == {}
      modifies this`entries, placement, tables, physical, frames.frames
      ensures IdentityBelow(end, old(placement.address))
      ensures placement.address + PAGE == end <= 0xF0_0000
    {
      hide DirectoryValid, Mapped, HasExactly, UsedBelow, UsedFrames, Covering;
      ghost var first := placement.address;
      var i := 0;
      EmptyUsed();
      FirstCovering();
      while i < placement.address + PAGE
        invariant i <= 0xF0_0000 && IdentityBelow(i, first) && i < placement.address + 2 * PAGE
        decreases placement.address + PAGE - i + 2 * PAGE * Absent(tables[..])
      {
        CoveringBound(i);
        NextTable(i);
        MapPage(i, first);
        i := i + PAGE;
      }
      end := i;
      OnPage(first, Covering(i));
    }

    /** Pages below end are mapped to themselves, heap pages below i to the frames that follow. */
    ghost predicate HeapMappedBelow(i: int, end: int)
      reads this, placement, tables, physical, frames.frames
    {
      && Valid() && KHEAP_START <= i && i % PAGE == 0 && 0 < end && end % PAGE == 0
      && HasExactly(Dir(), Covering(end), true)
      && Mapped(Dir(), end / PAGE, end / PAGE, i / PAGE)
      && UsedBelow(frames.Used(), end / PAGE + (i - KHEAP_START) / PAGE)
    }

    /** The third loop: gives every page of the initial heap a frame. */
    method MapHeap(ghost end: int)
      requires HeapMappedBelow(KHEAP_START, end) && end <= 0xF0_0000
      modifies this`entries, placement, tables, physical, frames.frames
      ensures HeapMappedBelow(KHEAP_START + KHEAP_INITIAL_SIZE, end) && placement.address == old(placement.address)
    {
      hide DirectoryValid, Mapped, HasExactly, UsedBelow, UsedFrames, Covering;
      var i := KHEAP_START;
      while i < KHEAP_START + KHEAP_INITIAL_SIZE
        invariant KHEAP_START <= i <= KHEAP_START + KHEAP_INITIAL_SIZE
        invariant HeapMappedBelow(i, end) && placement.address == old(placement.address)
      {
        MapHeapPage(i, end);
        i := i + PAGE;
      }
    }

    /** The body of the third loop. */
    method MapHeapPage(i: int, ghost end: int)
      requires HeapMappedBelow(i, end) && end <= 0xF0_0000 && i < KHEAP_START + KHEAP_INITIAL_SIZE
      modifies this`entries, placement, tables, physical, frames.frames
      ensures HeapMappedBelow(i + PAGE, end) && placement.address == old(placement.address)
    {
      hide DirectoryValid, Mapped, HasExactly, UsedBelow, UsedFrames, LeastFree, PageAt, Covering, EntryOf, HasTable;
      ghost var page, n := i / PAGE, end / PAGE;
      assert page / ENTRIES == HEAP_TABLE;
      ghost var before := Dir();
      HeapTableThere(before, Covering(end));
      assert before.tables[HEAP_TABLE] == tables[HEAP_TABLE];
      var e := GetPage(i, true);
      SameTables(before, Dir(), Covering(end));
      SamePages(before, Dir(), n, n, page);
      HeapPageEmpty(Dir(), n, page);
      NextFrame(frames.Used(), n + (i - KHEAP_START) / PAGE, frames.Limit());
      ghost var middle := Dir();
      AllocFrameAt(e.value, page);
      HeapMappedNext(middle, Dir(), n, page);
      SameTables(middle, Dir(), Covering(end));
    }

    /**
     * initialise_paging, up to the switch to the new directory. Afterwards every address below the placement
     * address plus one page, and so every page table, is translated to itself, and the pages of the initial heap
     * are translated to frames of their own behind that.
     */
    method InitialisePaging() returns (end: int)
      requires Valid() && HasExactly(Dir(), 0, false) && (forall p :: PageAt(Dir(), p) == EMPTY_PAGE)
      requires frames.Used() == {}
      requires After(placement.address, Request(PAGE, true)) + 0x8000 <= 0xEF_F000
      modifies this`entries, placement, tables, physical, frames.frames
      ensures Valid() && placement.address + 0x1000 == end <= 0xF0_0000 && end % PAGE == 0
      ensures KernelMap(Dir(), end)
      ensures forall f :: f in frames.Used() <==> 0 <= f < end / 0x1000 + 0x100
      ensures forall k :: 0 <= k < 1024 ==> physical[k] == if tables[k] == 0 then 0 else tables[k] + 7
      ensures forall v :: 0 <= v < placement.address + PAGE ==> Translate(Dir(), v) == Some(v)
      ensures forall k :: 0 <= k < TABLES && tables[k] != 0 ==> 0 <= tables[k] && tables[k] + PAGE <= placement.address
      ensures forall v :: KHEAP_START <= v < KHEAP_START + KHEAP_INITIAL_SIZE ==>
        Translate(Dir(), v) == Some(end + (v - KHEAP_START))
    {
      hide DirectoryValid, Mapped, HasExactly, UsedBelow, UsedFrames, PageAt, Covering, Translate, TableValid;
      NothingMapped(Dir());
      Aligned(placement.address);
      MakeHeapTables();
      NothingMapped(Dir());
      end := MapIdentity();
      HeapUnmapped(Dir(), end / PAGE);
      MapHeap(end);
      DirectorySizes(Dir(), placement.address);
      forall v | 0 <= v < placement.address + PAGE ensures Translate(Dir(), v) == Some(v) {
        IdentityTranslates(Dir(), placement.address, end, v);
      }
      forall v | KHEAP_START <= v < KHEAP_START + KHEAP_INITIAL_SIZE
        ensures Translate(Dir(), v) == Some(end + (v - KHEAP_START))
      {
        HeapTranslates(Dir(), placement.address, end, v);
      }
      MapsKernel(Dir(), placement.address, end);
      UsedAre(frames.Used(), end / PAGE + KHEAP_INITIAL_SIZE / PAGE);
      TablesEntered(Dir(), placement.address);
      assert forall k :: 0 <= k < physical.Length ==> Dir().physical[k] == physical[k];
      TablesBelow(Dir(), placement.address);
      assert forall k :: 0 <= k < tables.Length ==> Dir().tables[k] == tables[k];
    }
  }

  lemma UsedAre(used: set<int>, n: int)
    requires UsedBelow(used, n)
    ensures forall f :: f in used <==> 0 <= f < n
  {
  }

  lemma OnPage(first: int, n: int)
    requires first % PAGE == 0
    ensures (first + 2 * PAGE * n) % PAGE == 0
  {
  }

  /** What the kernel's page tables translate, for every address. */
  lemma TranslatesExactly(d: Directory, placement: int, end: int, v: int)
    requires DirectoryValid(d, placement) && 0 <= v < TWO32 && 0 <= end <= 0xF0_0000 && end % PAGE == 0
    requires Mapped(d, end / PAGE, end / PAGE, (KHEAP_START + KHEAP_INITIAL_SIZE) / PAGE)
    ensures Translate(d, v) ==
      if v < end then Some(v) else if 0xC000_0000 <= v < 0xC010_0000 then Some(end + (v - 0xC000_0000)) else None
  {
    hide DirectoryValid, Translate, EntryOf;
    TranslateByPage(d, placement, v);
    assert PageAt(d, v / PAGE) == MappedTo(v / PAGE, end / PAGE, end / PAGE, (KHEAP_START + KHEAP_INITIAL_SIZE) / PAGE);
  }

  /** What every linear address is translated to: the kernel to itself, its heap to what follows, nothing else. */
  ghost predicate KernelMap(d: Directory, end: int) {
    && |d.physical| == 1024 && 0 <= end <= 0xC000_0000
    && (forall v :: 0 <= v < end ==> Translate(d, v) == Some(v))
    && (forall v :: 0xC000_0000 <= v < 0xC010_0000 ==> Translate(d, v) == Some(end + (v - 0xC000_0000)))
    && (forall v :: end <= v < 0xC000_0000 ==> Translate(d, v) == None)
    && (forall v :: 0xC010_0000 <= v < 0x1_0000_0000 ==> Translate(d, v) == None)
  }

  lemma MapsKernel(d: Directory, placement: int, end: int)
    requires DirectoryValid(d, placement) && 0 <= end <= 0xF0_0000 && end % PAGE == 0
    requires Mapped(d, end / PAGE, end / PAGE, (KHEAP_START + KHEAP_INITIAL_SIZE) / PAGE)
    ensures KernelMap(d, end)
  {
    hide Translate, Mapped;
    forall v | 0 <= v < end ensures Translate(d, v) == Some(v) {
      TranslatesExactly(d, placement, end, v);
    }
    forall v | 0xC000_0000 <= v < 0xC010_0000 ensures Translate(d, v) == Some(end + (v - 0xC000_0000)) {
      TranslatesExactly(d, placement, end, v);
    }
    forall v | end <= v < 0xC000_0000 ensures Translate(d, v) == None {
      TranslatesExactly(d, placement, end, v);
    }
    forall v | 0xC010_0000 <= v < 0x1_0000_0000 ensures Translate(d, v) == None {
      TranslatesExactly(d, placement, end, v);
    }
  }

  /** Every table is entered with its address and the flags present, writable and user. */
  lemma TablesEntered(d: Directory, placement: int)
    requires DirectoryValid(d, placement)
    ensures forall k :: 0 <= k < TABLES ==> d.physical[k] == if d.tables[k] == 0 then 0 else d.tables[k] + 7
  {
    forall k | 0 <= k < TABLES ensures d.physical[k] == if d.tables[k] == 0 then 0 else d.tables[k] + 7 {
      if d.tables[k] != 0 {
        assert TableValid(d, k, placement);
      }
    }
  }

  /** The whole boot sequence. */
  method BootKernel(start: int) returns (s: PageSystem, end: int)
    requires PAGE <= start && start + MEM_END / PAGE / 32 < 0xEF_3000
    ensures s.Valid() && s.placement.address + 0x1000 == end <= 0xF0_0000
    ensures KernelMap(s.Dir(), end)
    ensures forall v :: 0 <= v < s.placement.address + PAGE ==> Translate(s.Dir(), v) == Some(v)
    ensures forall k :: 0 <= k < TABLES && s.tables[k] != 0 ==>
      0 <= s.tables[k] && s.tables[k] + PAGE <= s.placement.address
    ensures forall v :: KHEAP_START <= v < KHEAP_START + KHEAP_INITIAL_SIZE ==>
      Translate(s.Dir(), v) == Some(end + (v - KHEAP_START))
  {
    hide DirectoryValid, PageAt, Translate;
    s := new PageSystem(start);
    StartFits(start);
    end := s.InitialisePaging();
  }

  /** With any higher start, an identity map that covers its own tables leaves too few frames for the heap. */
  lemma StartTooHigh(start: int, placement: int, end: int)
    requires PAGE <= start && start + MEM_END / PAGE / 32 >= 0xEF_3000
    requires var p := After(After(start, Request(MEM_END / PAGE / 32, false)), Request(DIRECTORY_SIZE, true));
      placement == After(p, Request(PAGE, true)) + 2 * PAGE * Covering(end)
    requires placement + PAGE <= end
    ensures end / PAGE + KHEAP_INITIAL_SIZE / PAGE > MEM_END / PAGE
  {
    var a := Place(start + MEM_END / PAGE / 32, true);
    assert a >= 0xEF_4000;
    assert Place(a + DIRECTORY_SIZE, true) == a + 3 * PAGE;
    assert end > 0xEF_8000;
    assert Covering(end) >= 4;
  }

  lemma StartFits(start: int)
    requires PAGE <= start && start + MEM_END / PAGE / 32 < 0xEF_3000
    ensures var p := After(After(start, Request(MEM_END / PAGE / 32, false)), Request(DIRECTORY_SIZE, true));
      After(p, Request(PAGE, true)) + 0x8000 <= 0xEF_F000
  {
  }

  lemma DirectorySizes(d: Directory, placement: int)
    requires DirectoryValid(d, placement)
    ensures |d.tables| == |d.physical| == TABLES
  {
  }

  lemma HeapTableThere(d: Directory, low: int)
    requires HasExactly(d, low, true)
    ensures |d.tables| == TABLES && d.tables[HEAP_TABLE] != 0
  {
  }

  lemma HeapPageEmpty(d: Directory, n: int, page: int)
    requires Mapped(d, n, n, page) && n <= KHEAP_START / PAGE <= page
    ensures PageAt(d, page) == EMPTY_PAGE
  {
    hide PageAt;
    assert PageAt(d, page) == MappedTo(page, n, n, page);
  }

  lemma HeapMappedNext(d: Directory, d': Directory, n: int, page: int)
    requires Mapped(d, n, n, page) && n <= KHEAP_START / PAGE <= page
    requires forall q ::
      PageAt(d', q) == if q == page then Page(true, false, true, n + page - KHEAP_START / PAGE) else PageAt(d, q)
    ensures Mapped(d', n, n, page + 1)
  {
    hide PageAt;
    forall p ensures PageAt(d', p) == MappedTo(p, n, n, page + 1) {
      assert PageAt(d, p) == MappedTo(p, n, n, page);
    }
  }

  lemma NothingMapped(d: Directory)
    requires forall p :: PageAt(d, p) == EMPTY_PAGE
    ensures Mapped(d, 0, 0, 0)
  {
  }

  lemma HeapUnmapped(d: Directory, n: int)
    requires Mapped(d, n, 0, 0)
    ensures Mapped(d, n, n, KHEAP_START / PAGE)
  {
    hide PageAt;
    forall p ensures PageAt(d, p) == MappedTo(p, n, n, KHEAP_START / PAGE) {
      assert PageAt(d, p) == MappedTo(p, n, 0, 0);
    }
  }

  lemma IdentityTranslates(d: Directory, placement: int, end: int, v: int)
    requires DirectoryValid(d, placement)
    requires Mapped(d, end / PAGE, end / PAGE, (KHEAP_START + KHEAP_INITIAL_SIZE) / PAGE)
    requires 0 <= v < end <= 0xF0_0000 && end % PAGE == 0
    ensures Translate(d, v) == Some(v)
  {
    hide DirectoryValid, Translate, EntryOf;
    TranslateByPage(d, placement, v);
    assert PageAt(d, v / PAGE) == MappedTo(v / PAGE, end / PAGE, end / PAGE, (KHEAP_START + KHEAP_INITIAL_SIZE) / PAGE);
  }

  lemma HeapTranslates(d: Directory, placement: int, end: int, v: int)
    requires DirectoryValid(d, placement)
    requires Mapped(d, end / PAGE, end / PAGE, (KHEAP_START + KHEAP_INITIAL_SIZE) / PAGE)
    requires KHEAP_START <= v < KHEAP_START + KHEAP_INITIAL_SIZE && 0 <= end <= 0xF0_0000 && end % PAGE == 0
    ensures Translate(d, v) == Some(end + (v - KHEAP_START))
  {
    hide DirectoryValid, Translate, EntryOf;
    TranslateByPage(d, placement, v);
    assert PageAt(d, v / PAGE) == MappedTo(v / PAGE, end / PAGE, end / PAGE, (KHEAP_START + KHEAP_INITIAL_SIZE) / PAGE);
  }

  lemma TablesBelow(d: Directory, placement: int)
    requires DirectoryValid(d, placement)
    ensures forall k :: 0 <= k < TABLES && d.tables[k] != 0 ==> 0 <= d.tables[k] && d.tables[k] + PAGE <= placement
  {
    forall k | 0 <= k < TABLES && d.tables[k] != 0 ensures 0 <= d.tables[k] && d.tables[k] + PAGE <= placement {
      assert TableValid(d, k, placement);
    }
  }

  lemma CoveringBound(i: int)
    requires 0 <= i <= 0xF0_0000
    ensures 0 <= Covering(i) <= 4
  {
  }

  lemma FirstCovering()
    ensures Covering(0) == 0
  {
  }

  lemma SameTables(d: Directory, d': Directory, low: int)
    requires HasExactly(d, low, true) && d'.tables == d.tables
    ensures HasExactly(d', low, true)
  {
  }

  lemma EmptyUsed()
    ensures UsedBelow({}, 0)
  {
  }

  lemma TableThere(d: Directory, low: int, k: int)
    requires HasExactly(d, low, true) && 0 <= k < 4
    ensures |d.tables| == TABLES && (d.tables[k] != 0 <==> k < low)
  {
  }

  lemma SamePages(d: Directory, d': Directory, n: int, base: int, m: int)
    requires Mapped(d, n, base, m) && forall p :: PageAt(d', p) == PageAt(d, p)
    ensures Mapped(d', n, base, m)
    ensures m == 0 ==> PageAt(d', n) == EMPTY_PAGE
  {
    hide PageAt;
    forall p ensures PageAt(d', p) == MappedTo(p, n, base, m) {
      assert PageAt(d, p) == MappedTo(p, n, base, m);
    }
  }

  lemma MappedNext(d: Directory, d': Directory, n: int)
    requires Mapped(d, n, 0, 0) && 0 <= n < KHEAP_START / PAGE
    requires forall q :: PageAt(d', q) == if q == n then Page(true, false, true, n) else PageAt(d, q)
    ensures Mapped(d', n + 1, 0, 0)
  {
    hide PageAt;
    forall p ensures PageAt(d', p) == MappedTo(p, n + 1, 0, 0) {
      assert PageAt(d, p) == MappedTo(p, n, 0, 0);
    }
  }
}
