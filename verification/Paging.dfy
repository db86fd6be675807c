/** The page directory of paging.c: get_page, and the translation that the processor makes with it. */
module Paging {
  import opened Machine
  import opened Frames
  import opened Bump

  const TABLES: int := 1024
  const ENTRIES: int := 1024
  const DIRECTORY_SIZE: int := 8196     // sizeof(page_directory_t)

  /**
   * tables and physical are the two arrays of page_directory_t. entries is the memory of the page tables: it has a
   * page entry at every address of an entry of a table.
   */
  datatype Directory = Directory(tables: seq<int>, physical: seq<int>, entries: map<int, Page>)

  /** The number of the table for a page, and the address of its entry in there. */
  function TableOf(page: int): int {
    page / ENTRIES
  }

  function EntryOf(d: Directory, page: int): int
    requires 0 <= TableOf(page) < |d.tables|
  {
    d.tables[TableOf(page)] + 4 * (page % ENTRIES)
  }

  /** A table starts on a page below the placement address, has all its entries, and its physical address is entered. */
  ghost predicate TableValid(d: Directory, k: int, placement: int)
    requires 0 <= k < |d.tables| == |d.physical|
  {
    && PAGE <= d.tables[k] && d.tables[k] % PAGE == 0 && d.tables[k] + PAGE <= placement
    && d.physical[k] == d.tables[k] + 7
    && forall i :: 0 <= i < ENTRIES ==> d.tables[k] + 4 * i in d.entries
  }

  ghost predicate DirectoryValid(d: Directory, placement: int) {
    && |d.tables| == |d.physical| == TABLES
    && (forall k :: 0 <= k < TABLES && d.tables[k] == 0 ==> d.physical[k] == 0)
    && (forall k :: 0 <= k < TABLES && d.tables[k] != 0 ==> TableValid(d, k, placement))
    && (forall k, l :: 0 <= k < l < TABLES && d.tables[k] != 0 ==> d.tables[k] != d.tables[l])
  }

  ghost predicate HasTable(d: Directory, page: int) {
    0 <= TableOf(page) < |d.tables| && d.tables[TableOf(page)] != 0
  }

  /** The entry of a page; the zero entry if its table does not exist. */
  ghost function PageAt(d: Directory, page: int): Page {
    if HasTable(d, page) && EntryOf(d, page) in d.entries then d.entries[EntryOf(d, page)] else EMPTY_PAGE
  }

  /** Entries of existing tables are at the same address only for the same page. */
  lemma EntriesDistinct(d: Directory, placement: int, p: int, q: int)
    requires DirectoryValid(d, placement) && HasTable(d, p) && HasTable(d, q)
    ensures EntryOf(d, p) == EntryOf(d, q) <==> p == q
    ensures EntryOf(d, p) in d.entries
  {
    var k, l := TableOf(p), TableOf(q);
    assert TableValid(d, k, placement) && TableValid(d, l, placement);
    if EntryOf(d, p) == EntryOf(d, q) {
      PagesApart(d.tables[k], d.tables[l], p % ENTRIES, q % ENTRIES);
    }
  }

  lemma PagesApart(a: int, b: int, i: int, j: int)
    requires a % PAGE == 0 && b % PAGE == 0 && 0 <= i < ENTRIES && 0 <= j < ENTRIES && a + 4 * i == b + 4 * j
    ensures a == b && i == j
  {
  }

  // ---------------------------------------------------------------- translation

  /** Two-level translation of a linear address with 4-KByte pages (Intel SDM, Volume 3A, section 4.3). */
  ghost function Translate(d: Directory, v: int): Option<int>
    requires 0 <= v < TWO32 && |d.physical| == TABLES
  {
    var pde := d.physical[v / 0x40_0000];
    if pde % 2 == 0 then None
    else
      var entry := pde - pde % PAGE + 4 * (v / PAGE % ENTRIES);
      if entry in d.entries && d.entries[entry].present then Some(d.entries[entry].frame * PAGE + v % PAGE) else None
  }

  /** The processor finds the entry that get_page returns. */
  lemma TranslateByPage(d: Directory, placement: int, v: int)
    requires DirectoryValid(d, placement) && 0 <= v < TWO32
    ensures Translate(d, v) == if HasTable(d, v / PAGE) && PageAt(d, v / PAGE).present
                               then Some(PageAt(d, v / PAGE).frame * PAGE + v % PAGE) else None
  {
    var k := TableOf(v / PAGE);
    assert k == v / 0x40_0000 && 0 <= k < TABLES;
    if d.tables[k] != 0 {
      assert TableValid(d, k, placement);
      assert d.physical[k] - d.physical[k] % PAGE == d.tables[k];
      EntriesDistinct(d, placement, v / PAGE, v / PAGE);
    }
  }

  // ---------------------------------------------------------------- get_page

  /** The directory with a zeroed table at base for the given page. */
  ghost function WithTable(d: Directory, page: int, base: int): Directory
    requires |d.tables| == |d.physical| == TABLES && 0 <= TableOf(page) < TABLES
  {
    Directory(d.tables[TableOf(page) := base], d.physical[TableOf(page) := base + 7], d.entries + Zeroed(base))
  }

  predicate IsEntry(base: int, a: int) {
    base <= a < base + PAGE && (a - base) % 4 == 0
  }

  function Zeroed(base: int): map<int, Page> {
    map a | base <= a < base + PAGE && IsEntry(base, a) :: EMPTY_PAGE
  }

  /** A new table at or above the placement address keeps the directory well formed and every page as it was. */
  lemma NewTable(d: Directory, placement: int, page: int, base: int)
    requires DirectoryValid(d, placement) && 0 <= TableOf(page) < TABLES && !HasTable(d, page)
    requires PAGE <= base && placement <= base && base % PAGE == 0
    ensures DirectoryValid(WithTable(d, page, base), base + PAGE)
    ensures forall p :: PageAt(WithTable(d, page, base), p) == PageAt(d, p)
  {
    var d' := WithTable(d, page, base);
    forall k | 0 <= k < TABLES && d'.tables[k] != 0 ensures TableValid(d', k, base + PAGE) {
      if k == TableOf(page) {
        assert forall i :: 0 <= i < ENTRIES ==> IsEntry(base, base + 4 * i);
      } else {
        assert TableValid(d, k, placement);
      }
    }
    forall p ensures PageAt(d', p) == PageAt(d, p) {
      if HasTable(d', p) {
        if TableOf(p) != TableOf(page) {
          assert TableValid(d, TableOf(p), placement);
        }
      }
    }
  }

  /** Writing one entry changes that page only. */
  lemma EntryWritten(d: Directory, placement: int, page: int, value: Page)
    requires DirectoryValid(d, placement) && HasTable(d, page)
    ensures var d' := d.(entries := d.entries[EntryOf(d, page) := value]);
      DirectoryValid(d', placement) && forall p :: PageAt(d', p) == if p == page then value else PageAt(d, p)
  {
    var d' := d.(entries := d.entries[EntryOf(d, page) := value]);
    forall k | 0 <= k < TABLES && d'.tables[k] != 0 ensures TableValid(d', k, placement) {
      assert TableValid(d, k, placement);
    }
    forall p ensures PageAt(d', p) == if p == page then value else PageAt(d, p) {
      if HasTable(d, p) {
        EntriesDistinct(d, placement, p, page);
      }
    }
  }
}
