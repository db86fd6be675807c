/** The FAT12 reader of tools/fat/fat.c on an image in memory. */
module FatReader {
  import opened Machine
  import opened FatTable

  /** The fields of the boot sector that the reader uses. */
  datatype Geometry = Geometry(bytesPerSector: u16, sectorsPerCluster: u8, reserved: u16, fatCount: u8,
                               dirEntries: u16, sectorsPerFat: u16)

  const DIRECTORY_ENTRY: int := 32
  const NAME: int := 11
  const END_OF_CHAIN: int := 0x0FF8

  predicate GeometryValid(g: Geometry) {
    g.bytesPerSector > 0 && g.sectorsPerCluster > 0
  }

  /** A volume: its image, its table, and the sector behind the root directory. */
  datatype Volume = Volume(image: seq<u8>, g: Geometry, fat: seq<u8>, rootEnd: int)

  function ClusterSector(v: Volume, c: int): int {
    var perCluster: int := v.g.sectorsPerCluster;
    v.rootEnd + (c - 2) * perCluster
  }

  function ClusterBytes(g: Geometry): int {
    var perCluster: int, perSector: int := g.sectorsPerCluster, g.bytesPerSector;
    perCluster * perSector
  }

  function ClusterOffset(v: Volume, c: int): int {
    var perSector: int := v.g.bytesPerSector;
    ClusterSector(v, c) * perSector
  }

  /** The cluster number is a data cluster with an entry in the table and all its bytes in the image. */
  predicate Usable(v: Volume, c: int) {
    && 2 <= c < END_OF_CHAIN && Inside(v.fat, c)
    && 0 <= v.rootEnd && ClusterOffset(v, c) + ClusterBytes(v.g) <= |v.image|
  }

  function UsableClusters(v: Volume): (r: set<int>)
    ensures forall c :: c in r <==> Usable(v, c)
  {
    set c | 2 <= c < END_OF_CHAIN && Usable(v, c)
  }

  function Content(v: Volume, c: int): (r: seq<u8>)
    requires Usable(v, c) && GeometryValid(v.g)
    ensures |r| == ClusterBytes(v.g)
  {
    ClusterPositive(v, c);
    v.image[ClusterOffset(v, c)..ClusterOffset(v, c) + ClusterBytes(v.g)]
  }

  lemma ClusterPositive(v: Volume, c: int)
    requires c >= 2 && v.rootEnd >= 0
    ensures ClusterOffset(v, c) >= 0 && ClusterBytes(v.g) >= 0 && ClusterSector(v, c) >= v.rootEnd
  {
    Product(c - 2, v.g.sectorsPerCluster);
    Product(ClusterSector(v, c), v.g.bytesPerSector);
    Product(v.g.sectorsPerCluster, v.g.bytesPerSector);
  }

  lemma Product(x: int, y: int)
    requires x >= 0 && y >= 0
    ensures x * y >= 0
  {
  }

  // ---------------------------------------------------------------- layout

  lemma Multiples(i: int, j: int, k: int)
    requires i < j && k >= 0
    ensures i * k + k <= j * k
  {
    assert (i + 1) * k == i * k + k;
    assert (i + 1) * k <= j * k;
  }

  /** Distinct clusters occupy disjoint sectors and bytes, all at or behind the end of the root directory. */
  lemma ClustersDisjoint(v: Volume, c: int, d: int)
    requires 2 <= c < d && 0 <= v.rootEnd
    ensures var perCluster: int := v.g.sectorsPerCluster;
      v.rootEnd <= ClusterSector(v, c) && ClusterSector(v, c) + perCluster <= ClusterSector(v, d)
    ensures ClusterOffset(v, c) + ClusterBytes(v.g) <= ClusterOffset(v, d)
  {
    var perCluster: int, perSector: int := v.g.sectorsPerCluster, v.g.bytesPerSector;
    ClusterPositive(v, c);
    Multiples(c - 2, d - 2, perCluster);
    Scaled(ClusterSector(v, c) + perCluster, ClusterSector(v, d), perSector);
    Distribute(ClusterSector(v, c), perCluster, perSector);
  }

  lemma Scaled(x: int, y: int, k: int)
    requires x <= y && k >= 0
    ensures x * k <= y * k
  {
  }

  lemma Distribute(x: int, y: int, k: int)
    ensures (x + y) * k == x * k + y * k
  {
  }

  /** The number of sectors of the root directory. */
  function RootSectors(g: Geometry): int
    requires g.bytesPerSector > 0
  {
    var size := DIRECTORY_ENTRY * g.dirEntries as int;
    var perSector: int := g.bytesPerSector;
    if size % perSector > 0 then size / perSector + 1 else size / perSector
  }

  /** It is the least number of sectors that holds all entries. */
  lemma RootSectorsLeast(g: Geometry)
    requires g.bytesPerSector > 0
    ensures var size := DIRECTORY_ENTRY * g.dirEntries as int; var perSector: int := g.bytesPerSector;
      size <= RootSectors(g) * perSector < size + perSector
  {
    var size := DIRECTORY_ENTRY * g.dirEntries as int;
    var perSector: int := g.bytesPerSector;
    assert size == perSector * (size / perSector) + size % perSector;
    Distribute(size / perSector, 1, perSector);
  }

  // ---------------------------------------------------------------- what readFile reads

  /** The byte offset that fseek gets, a wrapped product, and the one behind the last byte. */
  function From(g: Geometry, lba: int): u32 {
    var perSector: int := g.bytesPerSector;
    Wrap(lba * perSector)
  }

  function To(g: Geometry, lba: int, count: int): int {
    var perSector: int := g.bytesPerSector;
    From(g, lba) + count * perSector
  }

  /** The bytes that readFile asks for at cluster c, in wrapping arithmetic. */
  function ReadFrom(v: Volume, c: int): u32 {
    var perCluster: int := v.g.sectorsPerCluster;
    From(v.g, Wrap(v.rootEnd + (c - 2) * perCluster))
  }

  function ReadTo(v: Volume, c: int): int {
    var perCluster: int := v.g.sectorsPerCluster;
    To(v.g, Wrap(v.rootEnd + (c - 2) * perCluster), perCluster)
  }

  /** The image holds them. */
  predicate Readable(v: Volume, c: int) {
    ReadTo(v, c) <= |v.image|
  }

  function BytesAt(v: Volume, c: int): seq<u8>
    requires Readable(v, c)
  {
    Product(v.g.sectorsPerCluster, v.g.bytesPerSector);
    v.image[ReadFrom(v, c)..ReadTo(v, c)]
  }

  /** The table has an entry for c. */
  predicate Listed(v: Volume, c: int) {
    0 <= c && Inside(v.fat, c)
  }

  function ListedClusters(v: Volume): (r: set<int>)
    ensures forall c :: c in r <==> Listed(v, c) && c < 0x1_0000
  {
    set c | 0 <= c < 0x1_0000 && Listed(v, c)
  }

  function Next(v: Volume, c: int): u12
    requires Listed(v, c)
  {
    Entry(v.fat, c)
  }

  /** The loop of readFile ends with cluster c: it can not be read, or its entry is an end marker. */
  predicate Last(v: Volume, c: int)
    requires Listed(v, c)
  {
    !Readable(v, c) || Next(v, c) >= END_OF_CHAIN
  }

  // ---------------------------------------------------------------- chains

  /** From c on the loop comes to an end, using each of the given clusters at most once. */
  ghost predicate Stops(v: Volume, c: int, left: set<int>)
    decreases |left|
  {
    c in left && Listed(v, c) && (Last(v, c) || Stops(v, Next(v, c), left - {c}))
  }

  /** The clusters that it comes to. */
  ghost function Trace(v: Volume, c: int, left: set<int>): (r: seq<int>)
    requires Stops(v, c, left)
    ensures |r| >= 1 && r[0] == c && forall x :: x in r ==> x in left && Listed(v, x)
    decreases |left|
  {
    if Last(v, c) then [c] else [c] + Trace(v, Next(v, c), left - {c})
  }

  /** One turn of the loop. */
  lemma NextStop(v: Volume, c: int, left: set<int>)
    requires Stops(v, c, left)
    ensures Listed(v, c) && |left - {c}| < |left|
    ensures Last(v, c) <==> !Readable(v, c) || Next(v, c) >= END_OF_CHAIN
    ensures Last(v, c) ==> Trace(v, c, left) == [c]
    ensures !Last(v, c) ==> Stops(v, Next(v, c), left - {c})
    ensures !Last(v, c) ==> Trace(v, c, left) == [c] + Trace(v, Next(v, c), left - {c})
  {
    hide Listed, Readable, Next;
    assert left == left - {c} + {c};
  }

  /** They follow the table up to the one with which the loop ends, and none comes twice. */
  lemma {:induction false} TraceFollows(v: Volume, c: int, left: set<int>)
    requires Stops(v, c, left)
    ensures var ch := Trace(v, c, left);
      && (forall i :: 0 <= i < |ch| - 1 ==> !Last(v, ch[i]) && ch[i + 1] == Next(v, ch[i]))
      && Last(v, ch[|ch| - 1])
      && (forall i, j :: 0 <= i < j < |ch| ==> ch[i] != ch[j])
    decreases |left|
  {
    hide Listed, Last, Next;
    if !Last(v, c) {
      TraceFollows(v, Next(v, c), left - {c});
      var rest := Trace(v, Next(v, c), left - {c});
      assert forall x :: x in rest ==> x != c;
      assert forall i :: 0 <= i < |rest| ==> rest[i] in rest;
    }
  }

  /** The cluster after k turns of the loop; the walk stays where the loop ends or leaves the table. */
  ghost function Walk(v: Volume, c: int, k: nat): int
    decreases k
  {
    if k == 0 || !Listed(v, c) || Last(v, c) then c else Walk(v, Next(v, c), k - 1)
  }

  ghost predicate HaltsAt(v: Volume, c: int, k: nat) {
    Listed(v, Walk(v, c, k)) && Last(v, Walk(v, c, k))
  }

  lemma {:induction false} WalkSum(v: Volume, c: int, i: nat, j: nat)
    ensures Walk(v, c, i + j) == Walk(v, Walk(v, c, i), j)
    decreases i
  {
    hide Listed, Last, Next;
    if i > 0 && Listed(v, c) && !Last(v, c) {
      WalkSum(v, Next(v, c), i - 1, j);
    }
  }

  /** A walk that reaches its end for the first time after k steps visits no cluster twice. */
  lemma WalkDistinct(v: Volume, c: int, k: nat, i: nat, j: nat)
    requires HaltsAt(v, c, k) && (forall l: nat :: l < k ==> !HaltsAt(v, c, l)) && i < j <= k
    ensures Walk(v, c, i) != Walk(v, c, j)
  {
    hide Listed, Last;
    WalkSum(v, c, i, k - j);
    WalkSum(v, c, j, k - j);
    assert !HaltsAt(v, c, i + (k - j));
  }

  /** It passes listed clusters only. */
  lemma WalkListed(v: Volume, c: int, k: nat, i: nat)
    requires HaltsAt(v, c, k) && i <= k
    ensures Listed(v, Walk(v, c, i))
  {
    hide Listed, Last, Next;
    WalkSum(v, c, i, k - i);
  }

  lemma {:induction false} WalkRange(v: Volume, c: int, k: nat)
    requires c < 0x1_0000
    ensures Walk(v, c, k) < 0x1_0000
    decreases k
  {
    hide Listed, Last;
    if k > 0 && Listed(v, c) && !Last(v, c) {
      WalkRange(v, Next(v, c), k - 1);
    }
  }

  /** If the first k + 1 clusters of the walk are distinct and all left, the loop stops within them. */
  lemma {:induction false} StopsWithin(v: Volume, c: int, k: nat, left: set<int>)
    requires HaltsAt(v, c, k)
    requires forall i: nat :: i <= k ==> Walk(v, c, i) in left
    requires forall i: nat, j: nat :: i < j <= k ==> Walk(v, c, i) != Walk(v, c, j)
    ensures Stops(v, c, left)
    decreases k
  {
    hide Listed, Last, Next;
    WalkListed(v, c, k, 0);
    assert Walk(v, c, 0) in left;
    if !Last(v, c) {
      forall i: nat | i <= k - 1 ensures Walk(v, Next(v, c), i) in left - {c} {
        assert Walk(v, c, i + 1) == Walk(v, Next(v, c), i);
        assert Walk(v, c, 0) != Walk(v, c, i + 1);
      }
      forall i: nat, j: nat | i < j <= k - 1 ensures Walk(v, Next(v, c), i) != Walk(v, Next(v, c), j) {
        assert Walk(v, c, i + 1) == Walk(v, Next(v, c), i) && Walk(v, c, j + 1) == Walk(v, Next(v, c), j);
      }
      StopsWithin(v, Next(v, c), k - 1, left - {c});
    }
  }

  /** The loop of readFile comes to an end within the table exactly if the walk ever reaches one. */
  lemma StopsExactly(v: Volume, c: int)
    requires c < 0x1_0000
    ensures Stops(v, c, ListedClusters(v)) <==> exists k: nat :: HaltsAt(v, c, k)
  {
    hide Listed, Last, Next;
    if Stops(v, c, ListedClusters(v)) {
      var k := StopOf(v, c, ListedClusters(v));
    }
    if exists k: nat :: HaltsAt(v, c, k) {
      var k: nat :| HaltsAt(v, c, k);
      var l := FirstHalt(v, c, k);
      forall i: nat | i <= l ensures Walk(v, c, i) in ListedClusters(v) {
        WalkListed(v, c, l, i);
        WalkRange(v, c, i);
      }
      forall i: nat, j: nat | i < j <= l ensures Walk(v, c, i) != Walk(v, c, j) {
        WalkDistinct(v, c, l, i, j);
      }
      StopsWithin(v, c, l, ListedClusters(v));
    }
  }

  lemma {:induction false} FirstHalt(v: Volume, c: int, k: nat) returns (l: nat)
    requires HaltsAt(v, c, k)
    ensures l <= k && HaltsAt(v, c, l) && forall i: nat :: i < l ==> !HaltsAt(v, c, i)
  {
    hide HaltsAt;
    l := k;
    if i: nat :| i < k && HaltsAt(v, c, i) {
      l := FirstHalt(v, c, i);
    }
  }

  lemma {:induction false} StopOf(v: Volume, c: int, left: set<int>) returns (k: nat)
    requires Stops(v, c, left)
    ensures HaltsAt(v, c, k) && k + 1 == |Trace(v, c, left)| && Walk(v, c, k) == Trace(v, c, left)[k]
    decreases |left|
  {
    hide Listed, Last, Next;
    if Last(v, c) {
      k := 0;
    } else {
      var l := StopOf(v, Next(v, c), left - {c});
      k := l + 1;
    }
  }

  lemma {:induction false} TraceIsWalk(v: Volume, c: int, left: set<int>, i: nat)
    requires Stops(v, c, left) && i < |Trace(v, c, left)|
    ensures Trace(v, c, left)[i] == Walk(v, c, i)
    decreases |left|
  {
    hide Listed, Last, Next;
    if i > 0 {
      TraceIsWalk(v, Next(v, c), left - {c}, i - 1);
    }
  }

  /** It ends with a cluster that can not be read exactly if the walk comes to such a cluster before an end marker. */
  lemma FailsExactly(v: Volume, c: int, left: set<int>)
    requires Stops(v, c, left)
    ensures var ch := Trace(v, c, left);
      !Readable(v, ch[|ch| - 1]) <==> exists k: nat :: !Readable(v, Walk(v, c, k))
  {
    hide Listed, Readable, Next;
    var ch := Trace(v, c, left);
    var last := StopOf(v, c, left);
    TraceFollows(v, c, left);
    forall k: nat | k < last ensures Readable(v, Walk(v, c, k)) {
      TraceIsWalk(v, c, left, k);
      assert !Last(v, ch[k]);
    }
    forall k: nat | k >= last ensures Walk(v, c, k) == ch[last] {
      WalkSum(v, c, last, k - last);
    }
    if !Readable(v, ch[last]) {
      assert !Readable(v, Walk(v, c, last));
    }
  }

  /** The bytes read for the clusters of a chain, one after the other. */
  function Gathered(v: Volume, ch: seq<int>): (r: seq<u8>)
    requires forall x :: x in ch ==> Readable(v, x)
  {
    if ch == [] then [] else Gathered(v, ch[..|ch| - 1]) + BytesAt(v, ch[|ch| - 1])
  }

  /** For usable clusters they are the contents of the clusters. */
  lemma {:induction false} GatheredContents(v: Volume, ch: seq<int>)
    requires GeometryValid(v.g) && |v.image| <= TWO32 && forall x :: x in ch ==> Usable(v, x)
    ensures (forall x :: x in ch ==> Readable(v, x)) && Gathered(v, ch) == Concatenated(v, ch)
    decreases |ch|
  {
    hide Usable, Content, Readable, BytesAt;
    if ch != [] {
      GatheredContents(v, ch[..|ch| - 1]);
      UsableRead(v, ch[|ch| - 1]);
    }
  }

  /** The contents of the clusters of a chain, one after the other. */
  function Concatenated(v: Volume, ch: seq<int>): (r: seq<u8>)
    requires GeometryValid(v.g) && forall x :: x in ch ==> Usable(v, x)
  {
    if ch == [] then [] else Concatenated(v, ch[..|ch| - 1]) + Content(v, ch[|ch| - 1])
  }

  // ---------------------------------------------------------------- the reader

  /** Whether the image holds so many sectors there, and they are these bytes. */
  ghost predicate SectorsRead(image: seq<u8>, g: Geometry, lba: int, count: int, ok: bool, bytes: seq<u8>) {
    && (ok <==> To(g, lba, count) <= |image|)
    && (ok ==> From(g, lba) <= To(g, lba, count) && bytes == image[From(g, lba)..To(g, lba, count)])
  }

  /** Where readFile looks for the bytes and for the entry of a cluster. */
  lemma ReadPlace(v: Volume, c: int)
    ensures var S: int, per: int := v.g.bytesPerSector, v.g.sectorsPerCluster;
      && ReadFrom(v, c) == (((v.rootEnd + (c - 2) * per) % 0x1_0000_0000) * S) % 0x1_0000_0000
      && ReadTo(v, c) == ReadFrom(v, c) + per * S && 0 <= per * S
  {
    Product(v.g.sectorsPerCluster, v.g.bytesPerSector);
  }

  lemma NextNibbles(v: Volume, c: int)
    requires Listed(v, c)
    ensures var low: int, high: int := v.fat[c * 3 / 2], v.fat[c * 3 / 2 + 1];
      Next(v, c) == if c % 2 == 0 then low + 0x100 * (high % 0x10) else low / 0x10 + 0x10 * high
  {
    hide Bits;
    BitsOf(v.fat[c * 3 / 2], v.fat[c * 3 / 2 + 1]);
  }

  /** The globals g_Fat, g_RootDirectory and g_RootDirectoryEnd for an opened image. */
  class Reader {
    const image: seq<u8>
    const g: Geometry
    var fat: seq<u8>
    var root: seq<u8>
    var rootEnd: int

    ghost function Vol(): Volume
      reads this
    {
      Volume(image, g, fat, rootEnd)
    }

    constructor (image: seq<u8>, g: Geometry)
      ensures this.image == image && this.g == g
    {
      this.image, this.g := image, g;
      fat, root, rootEnd := [], [], 0;
    }

    /** readSectors: seeks to the wrapped product and succeeds if the image holds all the sectors. */
    method ReadSectors(lba: int, count: int) returns (ok: bool, bytes: seq<u8>)
      requires GeometryValid(g) && 0 <= count
      ensures SectorsRead(image, g, lba, count, ok, bytes) && (!ok ==> bytes == [])
      ensures var S: int := g.bytesPerSector;
        var at := (lba * S) % 0x1_0000_0000;
        && (ok <==> at + count * S <= |image|)
        && (ok ==> 0 <= count * S && bytes == image[at..at + count * S])
    {
      var perSector: int := g.bytesPerSector;
      var at := Wrap(lba * perSector);
      Product(count, perSector);
      if at + count * perSector <= |image| {
        return true, image[at..at + count * perSector];
      }
      return false, [];
    }

    method ReadFat() returns (ok: bool)
      requires GeometryValid(g)
      modifies this`fat
      ensures SectorsRead(image, g, g.reserved, g.sectorsPerFat, ok, fat)
      ensures var S: int, first: int, n: int := g.bytesPerSector, g.reserved, g.sectorsPerFat;
        && (ok <==> first * S + n * S <= |image|)
        && (ok ==> 0 <= first * S && 0 <= n * S && fat == image[first * S..first * S + n * S])
    {
      FatPlace(g);
      ok, fat := ReadSectors(g.reserved, g.sectorsPerFat);
    }

    method ReadRootDirectory() returns (ok: bool)
      requires GeometryValid(g)
      modifies this`root, this`rootEnd
      ensures var perFat: int, fats: int, first: int := g.sectorsPerFat, g.fatCount, g.reserved;
        rootEnd == first + perFat * fats + RootSectors(g) && 0 <= rootEnd < TWO32
      ensures SectorsRead(image, g, rootEnd - RootSectors(g), RootSectors(g), ok, root)
      ensures var S: int := g.bytesPerSector;
        var first, n := g.reserved as int
          + g.sectorsPerFat as int * g.fatCount as int, (32 * g.dirEntries as int + S - 1) / S;
        && rootEnd == first + n
        && (first * S < 0x1_0000_0000 ==>
              && (ok <==> first * S + n * S <= |image|)
              && (ok ==> 0 <= first * S && 0 <= n * S && root == image[first * S..first * S + n * S]))
      ensures ok ==> DIRECTORY_ENTRY * g.dirEntries as int <= |root|
    {
      var perFat: int, fats: int, first: int := g.sectorsPerFat, g.fatCount, g.reserved;
      var perSector: int := g.bytesPerSector;
      var lba := first + perFat * fats;
      var size := DIRECTORY_ENTRY * g.dirEntries as int;
      var sectors := size / perSector;
      if size % perSector > 0 {
        sectors := sectors + 1;
      }
      RootBounds(g);
      RootSectorsLeast(g);
      RootPlace(g, lba);
      rootEnd := lba + sectors;
      ok, root := ReadSectors(lba, sectors);
    }

    /** findFile: the number of the first directory entry with the given name, None for the null pointer. */
    method FindFile(name: seq<u8>) returns (r: Option<int>)
      requires |name| >= NAME && |root| >= DIRECTORY_ENTRY * g.dirEntries as int
      ensures r.None? ==> forall i :: 0 <= i < g.dirEntries as int ==> NameAt(root, i) != name[..11]
      ensures r.Some? ==> 0 <= r.value < g.dirEntries as int && root[32 * r.value..32 * r.value + 11] == name[..11]
      ensures r.Some? ==> forall i :: 0 <= i < r.value ==> NameAt(root, i) != name[..11]
      ensures forall entries: seq<seq<u8>> ::
        |entries| == g.dirEntries as int && EntriesValid(entries) && DirectoryBytes(entries) <= root ==>
          match r
          case None => forall i :: 0 <= i < |entries| ==> entries[i][..11] != name[..11]
          case Some(k) => entries[k][..11] == name[..11] && forall i :: 0 <= i < k ==> entries[i][..11] != name[..11]
    {
      var i := 0;
      while i < g.dirEntries as int
        invariant 0 <= i <= g.dirEntries as int
        invariant forall k :: 0 <= k < i ==> NameAt(root, k) != name[..NAME]
      {
        if NameAt(root, i) == name[..NAME] {
          DirectoryNames(root);
          return Some(i);
        }
        i := i + 1;
      }
      DirectoryNames(root);
      return None;
    }

    /** The body of the loop of readFile: the bytes of a cluster and the entry of the table for it. */
    method ReadCluster(c: int) returns (ok: bool, bytes: seq<u8>, next: int)
      requires GeometryValid(g) && Listed(Vol(), c)
      ensures ok == Readable(Vol(), c) && next == Next(Vol(), c)
      ensures bytes == if ok then BytesAt(Vol(), c) else []
      ensures var S: int, per: int := g.bytesPerSector, g.sectorsPerCluster;
        var at := (((rootEnd + (c - 2) * per) % 0x1_0000_0000) * S) % 0x1_0000_0000;
        && (ok <==> at + per * S <= |image|)
        && (ok ==> 0 <= per * S && bytes == image[at..at + per * S])
      ensures var low: int, high: int := fat[c * 3 / 2], fat[c * 3 / 2 + 1];
        next == if c % 2 == 0 then low + 0x100 * (high % 0x10) else low / 0x10 + 0x10 * high
    {
      hide Inside, Entry, Wrap, From, To;
      ReadPlace(Vol(), c);
      NextNibbles(Vol(), c);
      WrapRange(rootEnd + (c - 2) * g.sectorsPerCluster as int);
      var perCluster: int := g.sectorsPerCluster;
      var lba := Wrap(rootEnd + (c - 2) * perCluster);
      ok, bytes := ReadSectors(lba, perCluster);
      next := Entry(fat, c);
    }

    /**
     * readFile from the first cluster of a file, if the loop ends within the table. It fails at the first cluster that
     * can not be read; the output then has the clusters before it.
     */
    method ReadFile(first: u16) returns (ok: bool, output: seq<u8>)
      requires GeometryValid(g) && Stops(Vol(), first, ListedClusters(Vol()))
      ensures FileRead(Vol(), Trace(Vol(), first, ListedClusters(Vol())), ok, output)
      ensures forall es: seq<u12>, ch: seq<int> ::
        |image| <= TWO32 && ChainOf(Vol(), es, ch) && ch[0] == first ==>
          var S: int, per: int := g.bytesPerSector, g.sectorsPerCluster;
          && ok && |output| == |ch| * (per * S)
          && forall i :: 0 <= i < |ch| ==> PartIs(output, i, per * S, image, (rootEnd + (ch[i] - 2) * per) * S)
    {
      hide Readable, Listed, Next, Last, BytesAt, ListedClusters, AllRead, FileRead, Stops, Trace;
      ghost var v := Vol();
      ghost var left, done := ListedClusters(v), [];
      ghost var all := Trace(v, first, left);
      NothingRead(v);
      var currentCluster: int := first;
      ok, output := true, [];
      var more := true;
      while more
        invariant Vol() == v && (more ==> ok && AllRead(v, done, output))
        invariant more ==> Stops(v, currentCluster, left) && done + Trace(v, currentCluster, left) == all
        invariant !more ==> FileRead(v, all, ok, output)
        decreases |left|, more
      {
        ghost var c := currentCluster;
        NextStop(v, c, left);
        var ok', bytes, next := ReadCluster(currentCluster);
        if ok' {
          OneMoreCluster(v, done, output, c);
        } else {
          ReadFails(v, done, output, c);
        }
        ok, output, currentCluster := ok && ok', output + bytes, next;
        more := ok && currentCluster < END_OF_CHAIN;
        if more {
          assert done + Trace(v, c, left) == (done + [c]) + Trace(v, currentCluster, left - {c});
          left := left - {c};
        }
        done := done + [c];
      }
      hide ChainOf, PartIs, Usable, Concatenated;
      forall es: seq<u12>, ch: seq<int> | |image| <= TWO32 && ChainOf(v, es, ch) && ch[0] == first
        ensures ok && |output| == |ch| * ClusterBytes(g)
        ensures forall i :: 0 <= i < |ch| ==> PartIs(output, i, ClusterBytes(g), image, ClusterOffset(v, ch[i]))
      {
        ChainIsRead(v, es, ch, ok, output);
      }
    }
  }

  /**
   * ch is a chain in a table that begins with the packed entries es: data clusters inside the image, each but the last
   * followed by the one that its entry names, the last with an end marker.
   */
  ghost predicate ChainOf(v: Volume, es: seq<u12>, ch: seq<int>) {
    var S: int, per: int := v.g.bytesPerSector, v.g.sectorsPerCluster;
    && Pack(es) <= v.fat && 0 <= v.rootEnd && |ch| >= 1
    && (forall i, j :: 0 <= i < j < |ch| ==> ch[i] != ch[j])
    && (forall i :: 0 <= i < |ch| ==>
          2 <= ch[i] < 0xFF8 && ch[i] < |es| && (v.rootEnd + (ch[i] - 2) * per) * S + per * S <= |v.image|)
    && (forall i :: 0 <= i < |ch| - 1 ==> es[ch[i]] as int == ch[i + 1])
    && es[ch[|ch| - 1]] >= 0xFF8
  }

  /** The i-th part of that size of the output is the bytes of the image from the offset on. */
  ghost predicate PartIs(output: seq<u8>, i: int, size: int, image: seq<u8>, offset: int) {
    && 0 <= i * size && 0 <= size && i * size + size <= |output| && 0 <= offset && offset + size <= |image|
    && output[i * size..i * size + size] == image[offset..offset + size]
  }

  /** Such a chain is what readFile comes to, within any set that has its clusters. */
  lemma {:induction false} ChainIsTrace(v: Volume, es: seq<u12>, ch: seq<int>, k: nat, left: set<int>)
    requires GeometryValid(v.g) && |v.image| <= TWO32 && ChainOf(v, es, ch) && k < |ch|
    requires forall i :: k <= i < |ch| ==> ch[i] in left
    ensures Stops(v, ch[k], left) && Trace(v, ch[k], left) == ch[k..]
    decreases |ch| - k
  {
    hide Readable, BytesAt, Content, ClusterBytes, ClusterOffset;
    ChainCluster(v, es, ch, k);
    if k < |ch| - 1 {
      ChainIsTrace(v, es, ch, k + 1, left - {ch[k]});
      assert ch[k..] == [ch[k]] + ch[k + 1..];
    }
  }

  /** The loop of readFile comes to an end for such a chain. */
  lemma ChainStops(v: Volume, es: seq<u12>, ch: seq<int>)
    requires GeometryValid(v.g) && |v.image| <= TWO32 && ChainOf(v, es, ch)
    ensures Stops(v, ch[0], ListedClusters(v))
  {
    hide Stops, Trace, ListedClusters, Readable, Next, Last;
    forall i | 0 <= i < |ch| ensures ch[i] in ListedClusters(v) {
      ChainCluster(v, es, ch, i);
    }
    ChainIsTrace(v, es, ch, 0, ListedClusters(v));
  }

  lemma ChainCluster(v: Volume, es: seq<u12>, ch: seq<int>, k: nat)
    requires GeometryValid(v.g) && |v.image| <= TWO32 && ChainOf(v, es, ch) && k < |ch|
    ensures Usable(v, ch[k]) && Listed(v, ch[k]) && Readable(v, ch[k]) && ch[k] in ListedClusters(v)
    ensures Next(v, ch[k]) == es[ch[k]] && (Last(v, ch[k]) <==> k == |ch| - 1)
  {
    hide Readable, BytesAt, Content, Inside, Entry, Pack;
    EntryOfTable(v.fat, es, ch[k]);
    UsableRead(v, ch[k]);
    if k < |ch| - 1 {
      assert es[ch[k]] as int == ch[k + 1] && ch[k + 1] < 0xFF8;
    }
  }

  lemma ChainIsRead(v: Volume, es: seq<u12>, ch: seq<int>, ok: bool, output: seq<u8>)
    requires GeometryValid(v.g) && |v.image| <= TWO32 && ChainOf(v, es, ch) && 0 <= ch[0] < 0x1_0000
    requires Stops(v, ch[0], ListedClusters(v)) && FileRead(v, Trace(v, ch[0], ListedClusters(v)), ok, output)
    ensures ok && |output| == |ch| * ClusterBytes(v.g)
    ensures forall i :: 0 <= i < |ch| ==> PartIs(output, i, ClusterBytes(v.g), v.image, ClusterOffset(v, ch[i]))
  {
    hide Readable, Stops, Trace, Concatenated, FileRead, Usable, ListedClusters, PartIs, Listed, Last, Next;
    assert |ch| >= 1;
    hide ChainOf;
    forall i | 0 <= i < |ch| ensures ch[i] in ListedClusters(v) && Usable(v, ch[i]) {
      ChainCluster(v, es, ch, i);
    }
    ChainIsTrace(v, es, ch, 0, ListedClusters(v));
    assert ch[0..] == ch;
    UsableFile(v, ch[0], ok, output);
    ConcatenatedParts(v, ch);
  }

  lemma {:induction false} ConcatenatedParts(v: Volume, ch: seq<int>)
    requires GeometryValid(v.g) && forall x :: x in ch ==> Usable(v, x)
    ensures |Concatenated(v, ch)| == |ch| * ClusterBytes(v.g)
    ensures forall i :: 0 <= i < |ch| ==>
      PartIs(Concatenated(v, ch), i, ClusterBytes(v.g), v.image, ClusterOffset(v, ch[i]))
    decreases |ch|
  {
    hide Usable, PartIs;
    if ch != [] {
      var n := |ch| - 1;
      ConcatenatedParts(v, ch[..n]);
      LastPart(|ch|, ClusterBytes(v.g));
      LastPartIs(v, Concatenated(v, ch[..n]), ch[n], n);
      forall i | 0 <= i < n ensures PartIs(Concatenated(v, ch), i, ClusterBytes(v.g), v.image,
        ClusterOffset(v, ch[i])) {
        assert ch[..n][i] == ch[i];
        PartStays(Concatenated(v, ch[..n]), Content(v, ch[n]), i, ClusterBytes(v.g), v.image, ClusterOffset(v, ch[i]));
      }
    }
  }

  lemma PartStays(s: seq<u8>, t: seq<u8>, i: int, size: int, image: seq<u8>, offset: int)
    requires PartIs(s, i, size, image, offset)
    ensures PartIs(s + t, i, size, image, offset)
  {
    var at := i * size;
    assert (s + t)[at..at + size] == s[at..at + size];
  }

  lemma LastPartIs(v: Volume, s: seq<u8>, c: int, n: nat)
    requires Usable(v, c) && GeometryValid(v.g) && |s| == n * ClusterBytes(v.g)
    ensures PartIs(s + Content(v, c), n, ClusterBytes(v.g), v.image, ClusterOffset(v, c))
  {
    hide Usable, ClusterBytes, ClusterOffset;
    OffsetsInside(v, c);
    var t := Content(v, c);
    assert (s + t)[|s|..|s| + |t|] == t;
  }

  ghost predicate AllRead(v: Volume, ch: seq<int>, output: seq<u8>) {
    (forall x :: x in ch ==> Readable(v, x)) && output == Gathered(v, ch)
  }

  /** The outcome for a chain of clusters of which only the last one may be unreadable. */
  ghost predicate FileRead(v: Volume, ch: seq<int>, ok: bool, output: seq<u8>) {
    && |ch| >= 1 && ok == Readable(v, ch[|ch| - 1])
    && AllRead(v, if ok then ch else ch[..|ch| - 1], output)
  }

  /** A file on usable clusters is read, and the output is their contents in order. */
  lemma UsableFile(v: Volume, first: u16, ok: bool, output: seq<u8>)
    requires GeometryValid(v.g) && |v.image| <= TWO32 && Stops(v, first, ListedClusters(v))
    requires var ch := Trace(v, first, ListedClusters(v));
      FileRead(v, ch, ok, output) && forall x :: x in ch ==> Usable(v, x)
    ensures ok && output == Concatenated(v, Trace(v, first, ListedClusters(v)))
  {
    hide Usable, Readable, Stops, Trace, Concatenated, Gathered;
    var ch := Trace(v, first, ListedClusters(v));
    assert ch[|ch| - 1] in ch;
    GatheredContents(v, ch);
  }

  lemma NothingRead(v: Volume)
    ensures AllRead(v, [], [])
  {
  }

  lemma OneMoreCluster(v: Volume, done: seq<int>, output: seq<u8>, c: int)
    requires AllRead(v, done, output) && Readable(v, c)
    ensures AllRead(v, done + [c], output + BytesAt(v, c)) && FileRead(v, done + [c], true, output + BytesAt(v, c))
  {
    hide Readable, BytesAt;
    assert (done + [c])[..|done|] == done;
  }

  lemma ReadFails(v: Volume, done: seq<int>, output: seq<u8>, c: int)
    requires AllRead(v, done, output) && !Readable(v, c)
    ensures FileRead(v, done + [c], false, output + [])
  {
    hide Readable, BytesAt, Gathered;
    assert (done + [c])[..|done|] == done;
    assert output + [] == output;
  }

  /** The sectors that readFile asks for are the cluster, if it is usable. */
  lemma UsableRead(v: Volume, c: int)
    requires Usable(v, c) && GeometryValid(v.g) && |v.image| <= TWO32
    ensures Listed(v, c) && Readable(v, c) && BytesAt(v, c) == Content(v, c)
  {
    hide Inside;
    var perCluster: int, perSector: int := v.g.sectorsPerCluster, v.g.bytesPerSector;
    ClusterPositive(v, c);
    ProductPositive(perCluster, perSector);
    assert ClusterOffset(v, c) < TWO32;
    ProductAtLeast(ClusterSector(v, c), perSector);
    WrapSmall(ClusterSector(v, c));
    WrapSmall(ClusterOffset(v, c));
    hide Wrap;
  }

  lemma ProductPositive(x: int, y: int)
    requires x > 0 && y > 0
    ensures x * y > 0
  {
  }

  lemma ProductAtLeast(x: int, y: int)
    requires x >= 0 && y >= 1
    ensures x * y >= x
  {
  }

  lemma RootBounds(g: Geometry)
    requires g.bytesPerSector > 0
    ensures var perFat: int, fats: int := g.sectorsPerFat, g.fatCount;
      0 <= perFat * fats <= 0x100_0000 && 0 <= RootSectors(g) <= 0x20_0000
  {
    var perFat: int, fats: int := g.sectorsPerFat, g.fatCount;
    Product(perFat, fats);
    Scaled(perFat, 0x1_0000, fats);
    RootSectorsLeast(g);
    var size := DIRECTORY_ENTRY * g.dirEntries as int;
    var perSector: int := g.bytesPerSector;
    assert size / perSector <= size by {
      if size / perSector > size {
        ProductAtLeast(size / perSector, perSector);
      }
    }
  }

  /** Directory entries of 32 bytes, whose first 11 are the name. */
  predicate EntriesValid(entries: seq<seq<u8>>) {
    forall i :: 0 <= i < |entries| ==> |entries[i]| == 32
  }

  function DirectoryBytes(entries: seq<seq<u8>>): seq<u8> {
    if entries == [] then [] else DirectoryBytes(entries[..|entries| - 1]) + entries[|entries| - 1]
  }

  lemma {:induction false} DirectoryEntry(entries: seq<seq<u8>>)
    requires EntriesValid(entries)
    ensures |DirectoryBytes(entries)| == 32 * |entries|
    ensures forall i :: 0 <= i < |entries| ==> DirectoryBytes(entries)[32 * i..32 * i + 11] == entries[i][..11]
    decreases |entries|
  {
    if entries != [] {
      var n := |entries| - 1;
      DirectoryEntry(entries[..n]);
      var front := DirectoryBytes(entries[..n]);
      forall i | 0 <= i <= n ensures (front + entries[n])[32 * i..32 * i + 11] == entries[i][..11] {
        if i < n {
          assert (front + entries[n])[32 * i..32 * i + 11] == front[32 * i..32 * i + 11];
        }
      }
    }
  }

  ghost predicate NamesAre(root: seq<u8>, entries: seq<seq<u8>>)
    requires EntriesValid(entries)
  {
    32 * |entries| <= |root| && forall i :: 0 <= i < |entries| ==> NameAt(root, i) == entries[i][..11]
  }

  lemma DirectoryNames(root: seq<u8>)
    ensures forall entries: seq<seq<u8>> ::
      EntriesValid(entries) && DirectoryBytes(entries) <= root ==> NamesAre(root, entries)
  {
    forall entries: seq<seq<u8>> | EntriesValid(entries) && DirectoryBytes(entries) <= root
      ensures NamesAre(root, entries)
    {
      DirectoryEntry(entries);
      var d := DirectoryBytes(entries);
      forall i | 0 <= i < |entries| ensures NameAt(root, i) == entries[i][..11] {
        assert d[32 * i..32 * i + 11] == root[32 * i..32 * i + 11];
      }
    }
  }

  function NameAt(root: seq<u8>, i: int): seq<u8>
    requires 0 <= i && DIRECTORY_ENTRY * i + NAME <= |root|
  {
    root[DIRECTORY_ENTRY * i..DIRECTORY_ENTRY * i + NAME]
  }

  /** A product of a 16-bit sector number and a sector size does not wrap. */
  lemma FatPlace(g: Geometry)
    ensures var S: int, first: int, n: int := g.bytesPerSector, g.reserved, g.sectorsPerFat;
      0 <= first * S && 0 <= n * S && From(g, first) == first * S && To(g, first, n) == first * S + n * S
  {
    Product(g.reserved, g.bytesPerSector);
    Product(g.sectorsPerFat, g.bytesPerSector);
    SmallProduct(g.reserved, g.bytesPerSector);
    var S: int, first: int := g.bytesPerSector, g.reserved;
    WrapSmall(first * S);
  }

  lemma SmallProduct(x: u16, y: u16)
    ensures var a: int, b: int := x, y; a * b < TWO32
  {
    var a: int, b: int := x, y;
    Scaled(a, 0xFFFF, b);
  }

  lemma RootPlace(g: Geometry, first: int)
    requires g.bytesPerSector > 0 && 0 <= first
    ensures var S: int := g.bytesPerSector; var n := RootSectors(g);
      && n == (32 * g.dirEntries as int + S - 1) / S && 0 <= first * S && 0 <= n * S
      && (first * S < TWO32 ==> From(g, first) == first * S && To(g, first, n) == first * S + n * S)
  {
    var S: int := g.bytesPerSector;
    RootSectorsLeast(g);
    RootSectorsUp(32 * g.dirEntries as int, S, RootSectors(g));
    Product(first, S);
    Product(RootSectors(g), S);
    if first * S < TWO32 {
      WrapSmall(first * S);
    }
  }

  lemma RootSectorsUp(size: int, S: int, n: int)
    requires 0 <= size && 0 < S && size <= n * S < size + S
    ensures n == (size + S - 1) / S && n >= 0
  {
    var q, r := (size + S - 1) / S, (size + S - 1) % S;
    assert size + S - 1 == S * q + r;
    Distribute(q, 1, S);
    Distribute(n, 1, S);
    Larger(n, q + 1, S);
    Larger(q, n + 1, S);
    Larger(-1, n, S);
  }

  lemma Larger(x: int, y: int, k: int)
    requires k > 0
    ensures x * k < y * k <==> x < y
  {
    if x < y {
      assert y * k == x * k + (y - x) * k;
    } else {
      assert x * k == y * k + (x - y) * k;
    }
  }

  // ---------------------------------------------------------------- storing and reading back

  /** The volume with the bytes of cluster c replaced; the table is not touched. */
  function StoredCluster(v: Volume, c: int, bytes: seq<u8>): (r: Volume)
    requires Usable(v, c) && GeometryValid(v.g) && |bytes| == ClusterBytes(v.g)
    ensures |r.image| == |v.image|
  {
    ClusterPositive(v, c);
    var at := ClusterOffset(v, c);
    v.(image := v.image[..at] + bytes + v.image[at + |bytes|..])
  }

  /** The data is of the size of k clusters. */
  predicate Fills(g: Geometry, k: nat, data: seq<u8>) {
    |data| == k * ClusterBytes(g)
  }

  lemma FillsFront(g: Geometry, k: nat, data: seq<u8>)
    requires k >= 1 && Fills(g, k, data)
    ensures 0 <= |data| - ClusterBytes(g) <= |data| && Fills(g, k - 1, data[..|data| - ClusterBytes(g)])
  {
    Product(g.sectorsPerCluster, g.bytesPerSector);
    LastPart(k, ClusterBytes(g));
  }

  lemma LastPart(k: int, size: int)
    requires k >= 1 && size >= 0
    ensures 0 <= (k - 1) * size && k * size == (k - 1) * size + size
  {
  }

  /** The volume with the data laid out over the clusters of a chain, one after the other. */
  function Stored(v: Volume, ch: seq<int>, data: seq<u8>): (r: Volume)
    requires GeometryValid(v.g) && (forall x :: x in ch ==> Usable(v, x)) && Fills(v.g, |ch|, data)
    ensures |r.image| == |v.image| && r.g == v.g && r.fat == v.fat && r.rootEnd == v.rootEnd
    decreases |ch|
  {
    if ch == [] then v
    else
      var n, split := |ch| - 1, |data| - ClusterBytes(v.g);
      FillsFront(v.g, |ch|, data);
      UsableSame(v, Stored(v, ch[..n], data[..split]), ch[n]);
      StoredCluster(Stored(v, ch[..n], data[..split]), ch[n], data[split..])
  }

  lemma UsableSame(v: Volume, w: Volume, c: int)
    requires |w.image| == |v.image| && w.g == v.g && w.fat == v.fat && w.rootEnd == v.rootEnd
    ensures Usable(w, c) == Usable(v, c) && ClusterOffset(w, c) == ClusterOffset(v, c)
  {
    hide Inside;
    assert ClusterSector(w, c) == ClusterSector(v, c);
  }

  /** A slice of a sequence with some bytes replaced. */
  lemma SliceOfReplaced(s: seq<u8>, at: int, bytes: seq<u8>, i: int, n: int)
    requires 0 <= at && at + |bytes| <= |s| && 0 <= i && 0 <= n && i + n <= |s|
    ensures var r := s[..at] + bytes + s[at + |bytes|..];
      && |r| == |s|
      && (i + n <= at || at + |bytes| <= i ==> r[i..i + n] == s[i..i + n])
      && (i == at && n == |bytes| ==> r[i..i + n] == bytes)
  {
    var r := s[..at] + bytes + s[at + |bytes|..];
    assert forall k :: 0 <= k < |s| && !(at <= k < at + |bytes|) ==> r[k] == s[k];
    assert forall k :: 0 <= k < |bytes| ==> r[at + k] == bytes[k];
    if i + n <= at || at + |bytes| <= i {
      assert r[i..i + n] == s[i..i + n];
    }
    if i == at && n == |bytes| {
      assert r[i..i + n] == bytes;
    }
  }

  /** Storing a cluster is seen in that cluster and in no other. */
  lemma ContentStored(v: Volume, c: int, bytes: seq<u8>, d: int)
    requires Usable(v, c) && Usable(v, d) && GeometryValid(v.g) && |bytes| == ClusterBytes(v.g)
    ensures Usable(StoredCluster(v, c, bytes), d)
    ensures Content(StoredCluster(v, c, bytes), d) == if d == c then bytes else Content(v, d)
  {
    hide Usable, ClusterOffset, ClusterBytes;
    OffsetsInside(v, c);
    OffsetsInside(v, d);
    if c < d {
      ClustersDisjoint(v, c, d);
    } else if d < c {
      ClustersDisjoint(v, d, c);
    }
    UsableSame(v, StoredCluster(v, c, bytes), d);
    SliceOfReplaced(v.image, ClusterOffset(v, c), bytes, ClusterOffset(v, d), ClusterBytes(v.g));
  }

  lemma OffsetsInside(v: Volume, c: int)
    requires Usable(v, c)
    ensures 2 <= c && 0 <= v.rootEnd && 0 <= ClusterOffset(v, c) && 0 <= ClusterBytes(v.g)
    ensures ClusterOffset(v, c) + ClusterBytes(v.g) <= |v.image|
  {
    hide Inside;
    ClusterPositive(v, c);
  }

  lemma StoredNothing(v: Volume, data: seq<u8>)
    requires GeometryValid(v.g) && Fills(v.g, 0, data)
    ensures data == [] && Stored(v, [], data) == v
  {
  }

  lemma FrontUsable(v: Volume, ch: seq<int>, front: seq<u8>)
    requires GeometryValid(v.g) && (forall x :: x in ch ==> Usable(v, x)) && ch != [] && Fills(v.g, |ch| - 1, front)
    ensures Usable(Stored(v, ch[..|ch| - 1], front), ch[|ch| - 1])
  {
    hide Usable, ClusterBytes, Fills;
    UsableSame(v, Stored(v, ch[..|ch| - 1], front), ch[|ch| - 1]);
  }

  /** The last part of the data goes to the last cluster. */
  lemma StoredNext(v: Volume, ch: seq<int>, data: seq<u8>, front: seq<u8>, bytes: seq<u8>)
    requires GeometryValid(v.g) && (forall x :: x in ch ==> Usable(v, x)) && Fills(v.g, |ch|, data) && ch != []
    requires 0 <= |data| - ClusterBytes(v.g) <= |data|
    requires front == data[..|data| - ClusterBytes(v.g)] && bytes == data[|data| - ClusterBytes(v.g)..]
    requires Fills(v.g, |ch| - 1, front) && Usable(Stored(v, ch[..|ch| - 1], front), ch[|ch| - 1])
    ensures Stored(v, ch, data) == StoredCluster(Stored(v, ch[..|ch| - 1], front), ch[|ch| - 1], bytes)
  {
    hide Usable, StoredCluster, ClusterBytes, Fills;
  }

  /** Reading the clusters of a chain after storing data over them returns the data. */
  lemma {:induction false} StoreThenRead(v: Volume, ch: seq<int>, data: seq<u8>)
    requires GeometryValid(v.g) && (forall x :: x in ch ==> Usable(v, x)) && Fills(v.g, |ch|, data)
    requires forall i, j :: 0 <= i < j < |ch| ==> ch[i] != ch[j]
    ensures forall x :: Usable(v, x) ==> Usable(Stored(v, ch, data), x)
    ensures forall x :: Usable(v, x) && x !in ch ==> Content(Stored(v, ch, data), x) == Content(v, x)
    ensures Concatenated(Stored(v, ch, data), ch) == data
    decreases |ch|
  {
    hide Usable, Content, StoredCluster, ClusterBytes, Stored, Fills;
    if ch == [] {
      StoredNothing(v, data);
    } else {
      var n, split := |ch| - 1, |data| - ClusterBytes(v.g);
      FillsFront(v.g, |ch|, data);
      var front, bytes := data[..split], data[split..];
      FrontUsable(v, ch, front);
      StoredNext(v, ch, data, front, bytes);
      var before := Stored(v, ch[..n], front);
      StoreThenRead(v, ch[..n], front);
      forall x | Usable(v, x)
        ensures Usable(Stored(v, ch, data), x)
        ensures Content(Stored(v, ch, data), x) == if x == ch[n] then bytes else Content(before, x)
      {
        ContentStored(before, ch[n], bytes, x);
      }
      ConcatenatedSame(before, Stored(v, ch, data), ch[..n]);
    }
  }

  lemma {:induction false} ConcatenatedSame(v: Volume, w: Volume, ch: seq<int>)
    requires GeometryValid(v.g) && w.g == v.g
    requires forall x :: x in ch ==> Usable(v, x) && Usable(w, x) && Content(w, x) == Content(v, x)
    ensures Concatenated(w, ch) == Concatenated(v, ch)
    decreases |ch|
  {
    hide Usable, Content;
    if ch != [] {
      ConcatenatedSame(v, w, ch[..|ch| - 1]);
    }
  }
}
