/** Memory divided into chunks: a map from the address of every chunk to its size and kind. */
module Tiling {

  const HEADER: int := 12            // sizeof(header_t)
  const FOOTER: int := 8             // sizeof(footer_t)
  const TAGS: int := HEADER + FOOTER

  /** The size, tags included, of the chunk at every address where one starts. */
  type Chunks = map<int, int>

  /** The chunks lie in [lo, hi), follow each other without gap, and do not overlap. */
  ghost predicate Tiles(c: Chunks, lo: int, hi: int) {
    && lo in c
    && (forall a :: a in c ==> lo <= a && TAGS <= c[a] && a + c[a] <= hi)
    && (forall a :: a in c ==> a + c[a] == hi || a + c[a] in c)
    && (forall a, b :: a in c && b in c && a < b ==> a + c[a] <= b)
  }

  /** No two holes are adjacent. */
  ghost predicate Coalesced(c: Chunks, holes: set<int>) {
    forall a, b :: a in holes && b in holes && a in c ==> a + c[a] != b
  }

  /** Every address is in exactly one chunk. */
  lemma ChunkOf(c: Chunks, lo: int, hi: int, x: int) returns (a: int)
    requires Tiles(c, lo, hi) && lo <= x < hi
    ensures a in c && a <= x < a + c[a]
    ensures forall b :: b in c && b <= x < b + c[b] ==> b == a
  {
    a := lo;
    while a + c[a] <= x
      invariant a in c && a <= x
      decreases x - a
    {
      a := a + c[a];
    }
  }

  /** Every chunk but the first, and the upper bound, starts where another chunk ends. */
  lemma Previous(c: Chunks, lo: int, hi: int, a: int) returns (b: int)
    requires Tiles(c, lo, hi) && (a in c || a == hi) && a != lo
    ensures b in c && b + c[b] == a
  {
    if a in c {
      assert lo <= a <= c[a] + a <= hi;
    } else {
      assert lo <= lo + c[lo] <= hi;
    }
    b := ChunkOf(c, lo, hi, a - 1);
    if a in c {
      assert a <= a + c[a];
    }
  }

  lemma Ordered(c: Chunks, lo: int, hi: int)
    requires Tiles(c, lo, hi)
    ensures lo < hi
  {
    assert c[lo] >= TAGS;
  }

  lemma OneChunk(a: int, size: int)
    requires TAGS <= size
    ensures Tiles(map[a := size], a, a + size)
  {
  }

  /** A tiling grows by a chunk at its end. */
  lemma Append(c: Chunks, lo: int, hi: int, size: int)
    requires Tiles(c, lo, hi) && TAGS <= size
    ensures hi !in c && Tiles(c[hi := size], lo, hi + size)
  {
    var c' := c[hi := size];
    forall a | a in c' ensures lo <= a && TAGS <= c'[a] && a + c'[a] <= hi + size
      && (a + c'[a] == hi + size || a + c'[a] in c')
    {
      Ordered(c, lo, hi);
    }
  }

  lemma TwoChunks(a: int, size: int, size': int)
    requires TAGS <= size && TAGS <= size'
    ensures Tiles(map[a := size][a + size := size'], a, a + size + size')
    ensures Coalesced(map[a := size][a + size := size'], {a})
    ensures Coalesced(map[a := size][a + size := size'], {a + size})
  {
    OneChunk(a, size);
    Append(map[a := size], a, a + size, size');
  }

  lemma ThreeChunks(a: int, size: int, size': int, size'': int)
    requires TAGS <= size && TAGS <= size' && TAGS <= size''
    ensures var c := map[a := size][a + size := size'][a + size + size' := size''];
      Tiles(c, a, a + size + size' + size'') && Coalesced(c, {a, a + size + size'})
  {
    TwoChunks(a, size, size');
    Append(map[a := size][a + size := size'], a, a + size + size', size'');
  }

  /** The chunks of c outside [lo, hi) together with those of d. */
  function Splice(c: Chunks, lo: int, hi: int, d: Chunks): Chunks {
    (map x | x in c && !(lo <= x < hi) :: c[x]) + d
  }

  /** A chunk outside a stretch between two boundaries lies before or behind it. */
  lemma BeforeOrBehind(c: Chunks, start: int, end: int, lo: int, hi: int, a: int)
    requires Tiles(c, start, end) && lo <= hi && (lo in c || lo == end)
    requires a in c && !(lo <= a < hi)
    ensures a + c[a] <= lo || hi <= a < end
  {
    assert c[a] >= TAGS;
  }

  /** What a splice replaces: the stretch between two boundaries, or the last stretch of the tiling. */
  predicate Spliceable(c: Chunks, end: int, lo: int, hi: int, hi': int, end': int) {
    && lo <= hi
    && (lo in c || lo == end)
    && (hi in c || hi == end)
    && ((hi == hi' && end == end') || (hi == end && hi' == end'))
  }

  lemma SpliceBounds(c: Chunks, start: int, end: int, lo: int, hi: int, d: Chunks, hi': int, end': int)
    requires Tiles(c, start, end) && Tiles(d, lo, hi') && Spliceable(c, end, lo, hi, hi', end')
    ensures var c' := Splice(c, lo, hi, d);
      && start in c'
      && (forall a :: a in c' ==> start <= a && TAGS <= c'[a] && a + c'[a] <= end')
  {
    var c' := Splice(c, lo, hi, d);
    Ordered(c, start, end);
    Ordered(d, lo, hi');
    forall a | a in c' ensures start <= a && TAGS <= c'[a] && a + c'[a] <= end' {
      if a !in d {
        BeforeOrBehind(c, start, end, lo, hi, a);
      }
    }
  }

  lemma SpliceNext(c: Chunks, start: int, end: int, lo: int, hi: int, d: Chunks, hi': int, end': int, a: int)
    requires Tiles(c, start, end) && Tiles(d, lo, hi') && Spliceable(c, end, lo, hi, hi', end')
    requires a in Splice(c, lo, hi, d)
    ensures var c' := Splice(c, lo, hi, d);
      a + c'[a] == end' || a + c'[a] in c'
  {
    hide Tiles, Splice;
    InSplice(c, lo, hi, d, a);
    if a in d {
      Follows(d, lo, hi', a);
      InSplice(c, lo, hi, d, a + d[a]);
      InSplice(c, lo, hi, d, hi');
      InOrEnd(c, start, end, hi);
    } else {
      BeforeOrBehind(c, start, end, lo, hi, a);
      Follows(c, start, end, a);
      InSplice(c, lo, hi, d, a + c[a]);
      FirstIn(d, lo, hi');
    }
  }

  /** Where the chunks of a splice come from. */
  lemma InSplice(c: Chunks, lo: int, hi: int, d: Chunks, a: int)
    ensures a in Splice(c, lo, hi, d) <==> a in d || (a in c && !(lo <= a < hi))
    ensures a in d ==> Splice(c, lo, hi, d)[a] == d[a]
    ensures a !in d && a in c && !(lo <= a < hi) ==> Splice(c, lo, hi, d)[a] == c[a]
  {
  }

  /** A chunk is followed by a chunk or by the end. */
  lemma Follows(c: Chunks, lo: int, hi: int, a: int)
    requires Tiles(c, lo, hi) && a in c
    ensures lo <= a && TAGS <= c[a] && a + c[a] <= hi && (a + c[a] == hi || a + c[a] in c)
  {
  }

  lemma FirstIn(c: Chunks, lo: int, hi: int)
    requires Tiles(c, lo, hi)
    ensures lo in c && lo < hi
  {
    Ordered(c, lo, hi);
  }

  lemma InOrEnd(c: Chunks, start: int, end: int, a: int)
    requires Tiles(c, start, end) && (a in c || a == end)
    ensures a <= end && (a in c ==> a < end)
  {
    if a in c {
      Follows(c, start, end, a);
    }
  }

  lemma SpliceOrder(c: Chunks, start: int, end: int, lo: int, hi: int, d: Chunks, hi': int, end': int, a: int, b: int)
    requires Tiles(c, start, end) && Tiles(d, lo, hi') && Spliceable(c, end, lo, hi, hi', end')
    requires a in Splice(c, lo, hi, d) && b in Splice(c, lo, hi, d) && a < b
    ensures a + Splice(c, lo, hi, d)[a] <= b
  {
    Ordered(d, lo, hi');
    if a !in d {
      BeforeOrBehind(c, start, end, lo, hi, a);
    }
    if b !in d {
      BeforeOrBehind(c, start, end, lo, hi, b);
    }
  }

  /** A splice with another tiling of the stretch gives a tiling. */
  lemma SpliceTiles(c: Chunks, start: int, end: int, lo: int, hi: int, d: Chunks, hi': int, end': int)
    requires Tiles(c, start, end) && Tiles(d, lo, hi') && Spliceable(c, end, lo, hi, hi', end')
    ensures Tiles(Splice(c, lo, hi, d), start, end')
  {
    SpliceBounds(c, start, end, lo, hi, d, hi', end');
    forall a | a in Splice(c, lo, hi, d)
      ensures a + Splice(c, lo, hi, d)[a] == end' || a + Splice(c, lo, hi, d)[a] in Splice(c, lo, hi, d)
    {
      SpliceNext(c, start, end, lo, hi, d, hi', end', a);
    }
    forall a, b | a in Splice(c, lo, hi, d) && b in Splice(c, lo, hi, d) && a < b
      ensures a + Splice(c, lo, hi, d)[a] <= b
    {
      SpliceOrder(c, start, end, lo, hi, d, hi', end', a, b);
    }
  }

  function SpliceHoles(holes: set<int>, lo: int, hi: int, dHoles: set<int>): set<int> {
    (set x | x in holes && !(lo <= x < hi)) + dHoles
  }

  /**
   * A splice creates no adjacent holes if the new stretch has none and its first and last chunks do not
   * meet a hole outside.
   */
  lemma SpliceCoalesced(c: Chunks, holes: set<int>, start: int, end: int, lo: int, hi: int,
                        d: Chunks, dHoles: set<int>, hi': int, end': int)
    requires Tiles(c, start, end) && Tiles(d, lo, hi') && Spliceable(c, end, lo, hi, hi', end')
    requires Coalesced(c, holes) && Coalesced(d, dHoles) && holes <= c.Keys && dHoles <= d.Keys
    requires lo in dHoles ==> forall a :: a in holes ==> a + c[a] != lo
    requires hi in holes ==> forall a :: a in dHoles ==> a + d[a] != hi
    ensures Coalesced(Splice(c, lo, hi, d), SpliceHoles(holes, lo, hi, dHoles))
  {
    var c' := Splice(c, lo, hi, d);
    var holes' := SpliceHoles(holes, lo, hi, dHoles);
    forall a, b | a in holes' && b in holes' && a in c' ensures a + c'[a] != b {
      SpliceApart(c, holes, start, end, lo, hi, d, dHoles, hi', end', a, b);
    }
  }

  lemma SpliceApart(c: Chunks, holes: set<int>, start: int, end: int, lo: int, hi: int,
                    d: Chunks, dHoles: set<int>, hi': int, end': int, a: int, b: int)
    requires Tiles(c, start, end) && Tiles(d, lo, hi') && Spliceable(c, end, lo, hi, hi', end')
    requires Coalesced(c, holes) && Coalesced(d, dHoles) && holes <= c.Keys && dHoles <= d.Keys
    requires lo in dHoles ==> forall a :: a in holes ==> a + c[a] != lo
    requires hi in holes ==> forall a :: a in dHoles ==> a + d[a] != hi
    requires a in SpliceHoles(holes, lo, hi, dHoles) && b in SpliceHoles(holes, lo, hi, dHoles)
    requires a in Splice(c, lo, hi, d)
    ensures a + Splice(c, lo, hi, d)[a] != b
  {
    hide Tiles, Splice;
    InSplice(c, lo, hi, d, a);
    FirstIn(d, lo, hi');
    InsideOrOutside(c, start, end, lo, hi, d, hi', a);
    InsideOrOutside(c, start, end, lo, hi, d, hi', b);
  }

  /** A chunk of the new stretch, or a chunk before or behind the replaced one. */
  lemma InsideOrOutside(c: Chunks, start: int, end: int, lo: int, hi: int, d: Chunks, hi': int, a: int)
    requires Tiles(c, start, end) && Tiles(d, lo, hi') && lo <= hi && (lo in c || lo == end)
    requires a in d || (a in c && !(lo <= a < hi))
    ensures a in d ==> lo <= a < a + d[a] <= hi'
    ensures a in c && !(lo <= a < hi) ==> a < a + c[a] && (a + c[a] <= lo || hi <= a < end)
  {
    if a in d {
      Follows(d, lo, hi', a);
    }
    if a in c && !(lo <= a < hi) {
      Follows(c, start, end, a);
      BeforeOrBehind(c, start, end, lo, hi, a);
    }
  }
}
