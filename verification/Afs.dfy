/** The image writer of tools/initrd/initrdcreator.c and the reader of vfs.c. */
module Afs {
  import opened Machine

  const MAX_FILES: int := 64
  const NAME_SIZE: int := 64
  const HEADER_SIZE: int := 76        // sizeof(struct initrd_header), with three bytes of padding behind the name
  const DATA_START: int := 4868       // the count and 64 headers
  const MAGIC: int := 0xBF

  datatype File = File(name: seq<u8>, data: seq<u8>)

  datatype Header = Header(magic: u8, name: seq<u8>, padding: seq<u8>, offset: u32, length: u32)

  predicate HeaderValid(h: Header) {
    |h.name| == NAME_SIZE && |h.padding| == 3
  }

  /** A header as the structure lies in memory. */
  function HeaderBytes(h: Header): (r: seq<u8>)
    requires HeaderValid(h)
    ensures |r| == HEADER_SIZE
  {
    [h.magic] + h.name + h.padding + WordBytes(h.offset) + WordBytes(h.length)
  }

  function TableBytes(hs: seq<Header>): (r: seq<u8>)
    requires forall i :: 0 <= i < |hs| ==> HeaderValid(hs[i])
    ensures |r| == HEADER_SIZE * |hs|
  {
    if hs == [] then [] else TableBytes(hs[..|hs| - 1]) + HeaderBytes(hs[|hs| - 1])
  }

  /** Slices of the two parts of a concatenation. */
  lemma Pasted(s: seq<u8>, t: seq<u8>)
    ensures forall a, b :: 0 <= a <= b <= |s| ==> (s + t)[a..b] == s[a..b]
    ensures (s + t)[|s|..|s| + |t|] == t
  {
  }

  lemma Front(s: seq<u8>, t: seq<u8>, a: int, b: int)
    requires 0 <= a <= b <= |s|
    ensures (s + t)[a..b] == s[a..b]
  {
  }

  lemma {:induction false} TableAt(hs: seq<Header>, i: nat)
    requires (forall k :: 0 <= k < |hs| ==> HeaderValid(hs[k])) && i < |hs|
    ensures TableBytes(hs)[HEADER_SIZE * i..HEADER_SIZE * (i + 1)] == HeaderBytes(hs[i])
  {
    hide HeaderBytes, HeaderValid;
    var n := |hs| - 1;
    Pasted(TableBytes(hs[..n]), HeaderBytes(hs[n]));
    if i < n {
      TableAt(hs[..n], i);
    }
  }

  // ---------------------------------------------------------------- the layout

  /** The length of the data of the first files. */
  function TotalLength(files: seq<File>): nat {
    if files == [] then 0 else TotalLength(files[..|files| - 1]) + |files[|files| - 1].data|
  }

  function AllData(files: seq<File>): (r: seq<u8>)
    ensures |r| == TotalLength(files)
  {
    if files == [] then [] else AllData(files[..|files| - 1]) + files[|files| - 1].data
  }

  /** The data of file i starts where the data of the files before it ends. */
  lemma {:induction false} DataAt(files: seq<File>, i: nat)
    requires i < |files|
    ensures TotalLength(files[..i]) + |files[i].data| <= TotalLength(files)
    ensures AllData(files)[TotalLength(files[..i])..TotalLength(files[..i]) + |files[i].data|] == files[i].data
  {
    var n := |files| - 1;
    var rest := AllData(files[..n]);
    if i < n {
      DataAt(files[..n], i);
      assert files[..n][..i] == files[..i] && files[..n][i] == files[i];
      var at := TotalLength(files[..i]);
      Front(rest, files[n].data, at, at + |files[i].data|);
    } else {
      Pasted(rest, files[n].data);
    }
  }

  lemma TotalNext(files: seq<File>, i: nat)
    requires i < |files|
    ensures TotalLength(files[..i + 1]) == TotalLength(files[..i]) + |files[i].data|
    ensures AllData(files[..i + 1]) == AllData(files[..i]) + files[i].data
    ensures TotalLength(files[..i + 1]) <= TotalLength(files)
  {
    assert files[..i + 1][..i] == files[..i];
    DataAt(files, i);
  }

  /** The headers name the files, in order, with the lengths and with the prefix sums of the lengths as offsets. */
  ghost predicate HeadersFor(hs: seq<Header>, files: seq<File>, n: int) {
    && n <= |files| && n <= |hs|
    && (forall i :: 0 <= i < |hs| ==> HeaderValid(hs[i]))
    && (forall i :: 0 <= i < n ==> HeaderFor(hs[i], files, i))
  }

  predicate HeaderFor(h: Header, files: seq<File>, i: int)
    requires 0 <= i < |files|
  {
    var name := files[i].name;
    && HeaderValid(h) && |name| < NAME_SIZE
    && h.magic == MAGIC && h.name[..|name|] == name && h.name[|name|] == 0
    && h.offset == DATA_START + TotalLength(files[..i]) && h.length == |files[i].data|
  }

  predicate FilesValid(files: seq<File>) {
    && DATA_START + TotalLength(files) < TWO32
    && forall i :: 0 <= i < |files| ==>
      |files[i].name| < NAME_SIZE && forall k :: 0 <= k < |files[i].name| ==> files[i].name[k] != 0
  }

  /** The bytes of the name behind its terminating zero, and the padding, are what was in memory before. */
  predicate TailKept(h: Header, h': Header, n: nat) {
    |h.name| == |h'.name| == 64 && n < 64 && h'.name[n + 1..] == h.name[n + 1..] && h'.padding == h.padding
  }

  /** The assignments to the fields of header i; strcpy leaves the bytes behind the terminating zero. */
  function Filled(h: Header, files: seq<File>, i: int, off: int): (r: Header)
    requires HeaderValid(h) && 0 <= i < |files| && FilesValid(files) && off == DATA_START + TotalLength(files[..i])
    ensures HeaderFor(r, files, i) && HeaderValid(r) && TailKept(h, r, |files[i].name|)
  {
    TotalNext(files, i);
    var name := files[i].name;
    Header(MAGIC, name + [0] + h.name[|name| + 1..], h.padding, off, |files[i].data|)
  }

  lemma NoFiles(files: seq<File>)
    ensures TotalLength(files[..0]) == 0 && AllData(files[..0]) == []
  {
  }

  lemma TableNext(hs: seq<Header>, i: nat)
    requires (forall k :: 0 <= k < |hs| ==> HeaderValid(hs[k])) && i < |hs|
    ensures TableBytes(hs[..i + 1]) == TableBytes(hs[..i]) + HeaderBytes(hs[i])
  {
    hide HeaderBytes, HeaderValid;
    assert hs[..i + 1][..i] == hs[..i];
  }

  // ---------------------------------------------------------------- the count of files

  /** nheaders, from an argument count that main declares as a signed character; the division truncates. */
  function HeaderCount(argc: int): int {
    var c := if argc % 0x100 < 0x80 then argc % 0x100 else argc % 0x100 - 0x100;
    if c >= 1 then (c - 1) / 2 else -((1 - c) / 2)
  }

  /** The count is right for up to 63 of the 64 files that the header table has room for, and never too large. */
  lemma HeaderCountExact(n: int)
    requires 0 <= n
    ensures HeaderCount(2 * n + 1) == n <==> n <= MAX_FILES - 1
    ensures -MAX_FILES <= HeaderCount(2 * n + 1) <= n && HeaderCount(2 * n + 1) <= MAX_FILES - 1
    ensures HeaderCount(2 * n + 1) == if n % 128 < 64 then n % 128 else n % 128 - 128
  {
    var m := n % 128;
    assert 2 * n + 1 == 0x100 * (n / 128) + (2 * m + 1);
    LowByte(n / 128, 2 * m + 1);
  }

  lemma LowByte(q: int, r: int)
    requires 0 <= r < 0x100
    ensures (0x100 * q + r) % 0x100 == r
  {
  }

  // ---------------------------------------------------------------- writing

  /** The files that the loops of main reach. */
  function Reached(files: seq<File>, n: int): seq<File>
    requires n <= |files|
  {
    files[..if n < 0 then 0 else n]
  }

  /** The first loop of main: fills in a header for every file. The other headers keep what was in memory. */
  method FillHeaders(files: seq<File>, nheaders: int, headers: array<Header>)
    requires FilesValid(files) && headers.Length == MAX_FILES
    requires forall i :: 0 <= i < MAX_FILES ==> HeaderValid(headers[i])
    requires nheaders <= |files| && nheaders <= MAX_FILES
    modifies headers
    ensures HeadersFor(headers[..], files, nheaders)
    ensures forall i :: 0 <= i < MAX_FILES && nheaders <= i ==> headers[i] == old(headers[i])
    ensures forall i :: 0 <= i < nheaders ==> TailKept(old(headers[i]), headers[i], |files[i].name|)
  {
    hide HeaderFor, TotalLength, HeaderValid, TailKept;
    var off := HEADER_SIZE * MAX_FILES + 4;
    var i := 0;
    NoFiles(files);
    while i < nheaders
      invariant 0 <= i && (i <= nheaders || i == 0) && HeadersFor(headers[..], files, i)
      invariant off == DATA_START + TotalLength(files[..i])
      invariant forall k :: i <= k < MAX_FILES ==> headers[k] == old(headers[k])
      invariant forall k :: 0 <= k < i ==> TailKept(old(headers[k]), headers[k], |files[k].name|)
    {
      TotalNext(files, i);
      WrapSmall(DATA_START + TotalLength(files[..i + 1]));
      headers[i] := Filled(headers[i], files, i, off);
      off := Wrap(off + |files[i].data|);
      i := i + 1;
    }
  }

  /** The image with the given count and header table: the count, the table and the data, without gaps. */
  function ImageBytes(files: seq<File>, n: int, hs: seq<Header>): seq<u8>
    requires n <= |files| && forall i :: 0 <= i < |hs| ==> HeaderValid(hs[i])
  {
    WordBytes(Wrap(n)) + TableBytes(hs) + AllData(Reached(files, n))
  }

  /** The writing part of main: the count, all headers, and the data of the files. */
  method WriteImage(files: seq<File>, nheaders: int, headers: array<Header>) returns (image: seq<u8>)
    requires nheaders <= |files| && headers.Length == MAX_FILES
    requires forall i :: 0 <= i < MAX_FILES ==> HeaderValid(headers[i])
    ensures image == ImageBytes(files, nheaders, headers[..])
  {
    hide HeaderBytes, HeaderFor, TotalLength, AllData, WordBytes, TableBytes, Wrap;
    image := WordBytes(Wrap(nheaders));
    ghost var hs := headers[..];
    var i := 0;
    NoTable(hs);
    while i < MAX_FILES
      invariant 0 <= i <= MAX_FILES && image == WordBytes(Wrap(nheaders)) + TableBytes(hs[..i])
    {
      TableNext(hs, i);
      image := image + HeaderBytes(headers[i]);
      i := i + 1;
    }
    assert hs[..MAX_FILES] == hs;
    i := 0;
    NoFiles(files);
    while i < nheaders
      invariant 0 <= i && (i <= nheaders || i == 0)
      invariant image == WordBytes(Wrap(nheaders)) + TableBytes(hs) + AllData(files[..i])
    {
      TotalNext(files, i);
      image := image + files[i].data;
      i := i + 1;
    }
  }

  lemma NoTable(hs: seq<Header>)
    ensures TableBytes(hs[..0]) == []
  {
  }

  /** main, for the files on the command line: it writes an image of them exactly if there are at most 63. */
  method CreateImage(files: seq<File>, headers: array<Header>) returns (image: seq<u8>)
    requires FilesValid(files) && headers.Length == MAX_FILES
    requires forall i :: 0 <= i < MAX_FILES ==> HeaderValid(headers[i])
    modifies headers
    ensures var n := HeaderCount(2 * |files| + 1);
      n <= |files| && HeadersFor(headers[..], files, n) && image == ImageBytes(files, n, headers[..])
    ensures IsImage(image, files) <==> |files| <= MAX_FILES - 1
    ensures var m := |files| % 128; var n := if m < 64 then m else m - 128;
      && |image| >= 4868 && Word(image, 0) == n % 0x1_0000_0000
      && image[4868..] == AllData(files[..if n < 0 then 0 else n])
  {
    hide HeaderFor, HeaderValid, HeaderCount, ImageBytes;
    HeaderCountExact(|files|);
    var nheaders := HeaderCount(2 * |files| + 1);
    FillHeaders(files, nheaders, headers);
    image := WriteImage(files, nheaders, headers);
    CountIn(files, nheaders, headers[..]);
    ImageData(files, nheaders, headers[..]);
    if nheaders != |files| {
      NoImage(image, files, nheaders, headers[..]);
    }
  }

  ghost predicate IsImage(image: seq<u8>, files: seq<File>) {
    && |files| <= MAX_FILES
    && exists hs: seq<Header> ::
      |hs| == MAX_FILES && HeadersFor(hs, files, |files|) && image == ImageBytes(files, |files|, hs)
  }

  lemma CountIn(files: seq<File>, n: int, hs: seq<Header>)
    requires n <= |files| && forall i :: 0 <= i < |hs| ==> HeaderValid(hs[i])
    ensures |ImageBytes(files, n, hs)| >= 4 && Word(ImageBytes(files, n, hs), 0) == Wrap(n)
  {
    hide WordBytes, TableBytes, AllData, HeaderValid, Wrap, Word;
    var image := ImageBytes(files, n, hs);
    assert image[0..4] == WordBytes(Wrap(n));
    WordOfBytes(image, 0, Wrap(n));
  }

  lemma ImageData(files: seq<File>, n: int, hs: seq<Header>)
    requires n <= |files| && |hs| == 64 && forall i :: 0 <= i < |hs| ==> HeaderValid(hs[i])
    ensures |ImageBytes(files, n, hs)| >= 4868
    ensures ImageBytes(files, n, hs)[4868..] == AllData(files[..if n < 0 then 0 else n])
  {
    hide AllData, HeaderValid, TableBytes, WordBytes;
  }

  /** An image with another count is no image of the files. */
  lemma NoImage(image: seq<u8>, files: seq<File>, n: int, hs: seq<Header>)
    requires -MAX_FILES <= n < |files| && (forall i :: 0 <= i < |hs| ==> HeaderValid(hs[i]))
    requires image == ImageBytes(files, n, hs)
    ensures !IsImage(image, files)
  {
    hide ImageBytes, Word, HeaderValid, HeaderFor, Wrap;
    if IsImage(image, files) {
      var hs': seq<Header> :| |hs'| == MAX_FILES && HeadersFor(hs', files, |files|)
        && image == ImageBytes(files, |files|, hs');
      CountIn(files, n, hs);
      CountIn(files, |files|, hs');
      CountsDiffer(n, |files|);
      assert false;
    }
  }

  lemma CountsDiffer(n: int, m: int)
    requires -MAX_FILES <= n < m <= MAX_FILES
    ensures Wrap(n) != Wrap(m)
  {
  }

  // ---------------------------------------------------------------- reading

  /** The header of file i as the reader finds it in the image: fs_file_header_t has the layout of the writer. */
  function OffsetIn(image: seq<u8>, i: nat): u32
    requires DATA_START <= |image| && i < MAX_FILES
  {
    Word(image, 4 + HEADER_SIZE * i + 68)
  }

  function LengthIn(image: seq<u8>, i: nat): u32
    requires DATA_START <= |image| && i < MAX_FILES
  {
    Word(image, 4 + HEADER_SIZE * i + 72)
  }

  /** The header fields and the data of every file are where the writer said. */
  lemma ImageHolds(image: seq<u8>, files: seq<File>, i: nat)
    requires IsImage(image, files) && i < |files| <= MAX_FILES
    ensures DATA_START <= |image| == DATA_START + TotalLength(files)
    ensures Word(image, 0) == |files|
    ensures OffsetIn(image, i) == DATA_START + TotalLength(files[..i]) && LengthIn(image, i) == |files[i].data|
    ensures OffsetIn(image, i) + LengthIn(image, i) <= |image|
    ensures image[OffsetIn(image, i)..OffsetIn(image, i) + LengthIn(image, i)] == files[i].data
    ensures HeaderInImage(image, files, i)
  {
    hide HeaderBytes, HeaderFor, TotalLength, AllData, WordBytes, TableBytes, Word, HeaderInImage;
    var hs: seq<Header> :| |hs| == MAX_FILES && HeadersFor(hs, files, |files|)
      && image == ImageBytes(files, |files|, hs);
    assert files[..|files|] == files;
    WrapSmall(|files|);
    TableAt(hs, i);
    HeaderFields(hs[i], files, i);
    DataAt(files, i);
    var at := 4 + HEADER_SIZE * i;
    Parts(WordBytes(|files|), TableBytes(hs), AllData(files));
    assert image[at..at + HEADER_SIZE] == TableBytes(hs)[HEADER_SIZE * i..HEADER_SIZE * (i + 1)];
    SubWord(image, at, HeaderBytes(hs[i]), 68, hs[i].offset);
    SubWord(image, at, HeaderBytes(hs[i]), 72, hs[i].length);
    assert image[0..4] == WordBytes(|files|);
    WordOfBytes(image, 0, |files|);
    HeaderPlaced(image, files, i, hs[i]);
    var o := TotalLength(files[..i]);
    assert image[DATA_START + o..DATA_START + o + |files[i].data|] == AllData(files)[o..o + |files[i].data|];
  }

  /**
   * Header i in the image, byte for byte: the magic number, the name with a zero behind it, and from byte 68 on the
   * offset and the length of the data, least significant byte first.
   */
  ghost predicate HeaderInImage(image: seq<u8>, files: seq<File>, i: nat)
    requires i < |files|
  {
    var at, name := 4 + 76 * i, files[i].name;
    var offset, length := 4868 + TotalLength(files[..i]), |files[i].data|;
    && at + 76 <= |image| && |name| < 64
    && image[at] == 0xBF && image[at + 1..at + 1 + |name|] == name && image[at + 1 + |name|] == 0
    && (image[at + 68] == offset % 0x100 && image[at + 69] == offset / 0x100 % 0x100
        && image[at + 70] == offset / 0x1_0000 % 0x100 && image[at + 71] == offset / 0x100_0000)
    && (image[at + 72] == length % 0x100 && image[at + 73] == length / 0x100 % 0x100
        && image[at + 74] == length / 0x1_0000 % 0x100 && image[at + 75] == length / 0x100_0000)
  }

  lemma HeaderPlaced(image: seq<u8>, files: seq<File>, i: nat, h: Header)
    requires i < |files| && HeaderFor(h, files, i) && 4 + HEADER_SIZE * (i + 1) <= |image|
    requires image[4 + HEADER_SIZE * i..4 + HEADER_SIZE * (i + 1)] == HeaderBytes(h)
    ensures HeaderInImage(image, files, i)
  {
    hide WordBytes, TotalLength;
    WordDigits(h.offset);
    WordDigits(h.length);
    var b, at, name := HeaderBytes(h), 4 + HEADER_SIZE * i, files[i].name;
    HeaderLayout(h);
    assert forall k :: 0 <= k < 76 ==> image[at + k] == b[k];
    assert image[at + 1..at + 1 + |name|] == b[1..1 + |name|] == h.name[..|name|];
  }

  lemma HeaderLayout(h: Header)
    requires HeaderValid(h)
    ensures var b := HeaderBytes(h);
      && b[0] == h.magic && b[1..65] == h.name && (forall k :: 0 <= k < 64 ==> b[1 + k] == h.name[k])
      && (forall k :: 0 <= k < 4 ==> b[68 + k] == WordBytes(h.offset)[k] && b[72 + k] == WordBytes(h.length)[k])
  {
    hide WordBytes;
  }

  /** Slices of the three parts of a concatenation. */
  lemma Parts(s: seq<u8>, t: seq<u8>, u: seq<u8>)
    ensures (s + t + u)[0..|s|] == s
    ensures forall a, b :: 0 <= a <= b <= |t| ==> (s + t + u)[|s| + a..|s| + b] == t[a..b]
    ensures forall a, b :: 0 <= a <= b <= |u| ==> (s + t + u)[|s| + |t| + a..|s| + |t| + b] == u[a..b]
  {
  }

  lemma HeaderFields(h: Header, files: seq<File>, i: nat)
    requires i < |files| && HeaderFor(h, files, i)
    ensures HeaderValid(h) && h.offset == DATA_START + TotalLength(files[..i]) && h.length == |files[i].data|
    ensures HeaderBytes(h)[68..72] == WordBytes(h.offset) && HeaderBytes(h)[72..76] == WordBytes(h.length)
  {
  }

  lemma SubSlice(s: seq<u8>, a: int, b: int, c: int, d: int)
    requires 0 <= a <= b <= |s| && 0 <= c <= d <= b - a
    ensures s[a..b][c..d] == s[a + c..a + d]
  {
    var t := s[a..b];
    assert forall i :: 0 <= i < |t| ==> t[i] == s[a + i];
    assert t[c..d] == s[a + c..a + d];
  }

  lemma SubWord(image: seq<u8>, at: nat, part: seq<u8>, k: nat, v: u32)
    requires at + |part| <= |image| && image[at..at + |part|] == part && k + 4 <= |part|
    requires part[k..k + 4] == WordBytes(v)
    ensures Word(image, at + k) == v
  {
    hide Word, WordBytes;
    SubSlice(image, at, at + |part|, k, k + 4);
    WordOfBytes(image, at + k, v);
  }

  /** The number of bytes disk_read transfers; the sum of offset and size wraps. */
  function ReadCount(length: u32, offset: u32, size: u32): u32 {
    if offset > length then 0
    else if Wrap(offset + size as int) > length then length - offset as int
    else size
  }

  /** It is the clamped size exactly if the sum does not wrap, or the offset is behind the file. */
  lemma ReadCountExact(length: u32, offset: u32, size: u32)
    ensures var rest := if offset > length then 0 else length - offset as int;
      ReadCount(length, offset, size) == (if size <= rest then size else rest)
      <==> offset > length || offset + size as int < TWO32
    ensures offset <= length && offset + size as int >= TWO32 ==> ReadCount(length, offset, size) == size
  {
    if offset + size as int >= TWO32 {
      WrapSmall(offset + size as int - TWO32);
      assert Wrap(offset + size as int) == offset + size as int - TWO32;
    } else {
      WrapSmall(offset + size as int);
    }
  }

  /** memcpy from the image to the start of the buffer. */
  method CopyBytes(image: seq<u8>, from: nat, n: nat, buffer: array<u8>)
    requires from + n <= |image| && n <= buffer.Length
    modifies buffer
    ensures buffer[..n] == image[from..from + n] && buffer[n..] == old(buffer[n..])
  {
    var k := 0;
    while k < n
      invariant 0 <= k <= n
      invariant forall j :: 0 <= j < k ==> buffer[j] == image[from + j]
      invariant forall j :: k <= j < buffer.Length ==> buffer[j] == old(buffer[j])
    {
      buffer[k] := image[from + k];
      k := k + 1;
    }
  }

  /** disk_read of file inode of an image that starts at address 0. */
  method DiskRead(image: seq<u8>, inode: nat, offset: u32, size: u32, buffer: array<u8>) returns (n: u32)
    requires DATA_START <= |image| && inode < MAX_FILES
    requires ReadCount(LengthIn(image, inode), offset, size) <= buffer.Length
    requires DataInside(image, inode, offset, size)
    modifies buffer
    ensures n == ReadCount(LengthIn(image, inode), offset, size)
    ensures buffer[..n] == Slice(image, inode, offset, size)
    ensures buffer[n..] == old(buffer[n..])
  {
    hide Word, LengthIn, OffsetIn;
    var length := LengthIn(image, inode);
    if offset > length {
      return 0;
    }
    n := size;
    if Wrap(offset + size as int) > length {
      n := length - offset as int;
    }
    CopyBytes(image, OffsetIn(image, inode) + offset as int, n as int, buffer);
  }

  /** The bytes that disk_read copies, if any, lie inside the image. */
  predicate DataInside(image: seq<u8>, inode: nat, offset: u32, size: u32)
    requires DATA_START <= |image| && inode < MAX_FILES
  {
    offset <= LengthIn(image, inode) ==>
      OffsetIn(image, inode) + offset as int + ReadCount(LengthIn(image, inode), offset, size) as int <= |image|
  }

  /** The bytes that disk_read transfers. */
  function Slice(image: seq<u8>, inode: nat, offset: u32, size: u32): seq<u8>
    requires DATA_START <= |image| && inode < MAX_FILES && DataInside(image, inode, offset, size)
  {
    var from := OffsetIn(image, inode) + offset as int;
    if offset > LengthIn(image, inode) then []
    else image[from..from + ReadCount(LengthIn(image, inode), offset, size) as int]
  }

  /** Reading file i of an image yields the clamped slice of its data. */
  lemma ReadsFile(image: seq<u8>, files: seq<File>, i: nat, offset: u32, size: u32)
    requires IsImage(image, files) && i < |files| <= MAX_FILES && offset + size as int < TWO32
    ensures DATA_START <= |image| && ReadCount(LengthIn(image, i), offset, size) <= size
    ensures DataInside(image, i, offset, size)
    ensures var data := files[i].data;
      Slice(image, i, offset, size) ==
        if offset > |data| then []
        else data[offset..if offset + size as int <= |data| then offset + size as int else |data|]
  {
    hide IsImage, OffsetIn, LengthIn, TotalLength, HeaderInImage, Word, Wrap, ReadCount;
    ImageHolds(image, files, i);
    var data := files[i].data;
    var from, n: int := OffsetIn(image, i), ReadCount(LengthIn(image, i), offset, size);
    ReadCountClamped(LengthIn(image, i), offset, size);
    if offset <= |data| {
      SubSlice(image, from, from + |data|, offset, offset as int + n);
    }
  }

  lemma ReadCountClamped(length: u32, offset: u32, size: u32)
    requires offset + size as int < TWO32
    ensures ReadCount(length, offset, size) ==
      if offset > length then 0 else if offset + size as int <= length then size else length - offset as int
  {
    WrapSmall(offset + size as int);
  }

  /** What successive reads of chunk bytes from an offset on return, put together. */
  ghost function ReadAll(image: seq<u8>, files: seq<File>, i: nat, offset: u32, chunk: u32): seq<u8>
    requires IsImage(image, files) && i < |files| <= MAX_FILES && 0 < chunk
    requires offset <= |files[i].data| && |files[i].data| + chunk as int < TWO32
    decreases |files[i].data| - offset as int
  {
    ReadsFile(image, files, i, offset, chunk);
    var part := Slice(image, i, offset, chunk);
    if part == [] then [] else part + ReadAll(image, files, i, offset + |part|, chunk)
  }

  /** They rebuild the file, whatever the chunk size. */
  lemma {:induction false} ReadAllRebuilds(image: seq<u8>, files: seq<File>, i: nat, offset: u32, chunk: u32)
    requires IsImage(image, files) && i < |files| <= MAX_FILES && 0 < chunk
    requires offset <= |files[i].data| && |files[i].data| + chunk as int < TWO32
    ensures ReadAll(image, files, i, offset, chunk) == files[i].data[offset..]
    decreases |files[i].data| - offset as int
  {
    hide IsImage, Slice, OffsetIn, LengthIn, ReadCount;
    ReadsFile(image, files, i, offset, chunk);
    var part := Slice(image, i, offset, chunk);
    if part != [] {
      ReadAllRebuilds(image, files, i, offset + |part|, chunk);
    }
  }
}
