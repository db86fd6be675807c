/** The packed 12-bit entries of a FAT12 table. */
module FatTable {
  import opened Machine

  type u12 = x: int | 0 <= x < 0x1000

  /** The 16-bit word read at the offset of entry c. */
  predicate Inside(fat: seq<u8>, c: nat) {
    c * 3 / 2 + 1 < |fat|
  }

  /** The decoding of readFile: the low or the high 12 bits of the word. */
  function Entry(fat: seq<u8>, c: nat): u12
    requires Inside(fat, c)
  {
    Bits(fat[c * 3 / 2], fat[c * 3 / 2 + 1], c % 2 == 0)
  }

  function Bits(b0: u8, b1: u8, low: bool): u12 {
    var x: int, y: int := b0, b1;
    var word := x + 0x100 * y;
    if low then word % 0x1000 else word / 0x10
  }

  /** A low entry ends in the low half of its second byte, a high one starts in the high half of its first. */
  lemma BitsOf(b0: u8, b1: u8)
    ensures var x: int, y: int := b0, b1;
      Bits(b0, b1, true) == x + 0x100 * (y % 0x10) && Bits(b0, b1, false) == x / 0x10 + 0x10 * y
  {
    var x: int, y: int := b0, b1;
    assert x + 0x100 * y == 0x1000 * (y / 0x10) + (x + 0x100 * (y % 0x10));
    assert x + 0x100 * y == 0x10 * (x / 0x10 + 0x10 * y) + x % 0x10;
  }

  /** Two entries in three bytes (section "FAT Data Structure" of the FAT specification). */
  function PackPair(a: u12, b: u12): (r: seq<u8>)
    ensures |r| == 3
  {
    var a': int, b': int := a, b;
    [a' % 0x100, a' / 0x100 + 0x10 * (b' % 0x10), b' / 0x10]
  }

  /** The table of a sequence of entries; a last single entry takes two bytes. */
  function Pack(es: seq<u12>): (r: seq<u8>)
    ensures |r| == (|es| * 3 + 1) / 2
  {
    if es == [] then []
    else if |es| == 1 then PackPair(es[0], 0)[..2]
    else PackPair(es[0], es[1]) + Pack(es[2..])
  }

  /** The packed bytes as the FAT specification draws them, three for every two entries. */
  lemma {:induction false} PackedBytes(es: seq<u12>, k: nat)
    requires 2 * k + 1 < |es|
    ensures var a: int, b: int := es[2 * k], es[2 * k + 1]; var p := Pack(es);
      && 3 * k + 2 < |p|
      && p[3 * k] == a % 0x100 && p[3 * k + 1] == a / 0x100 + 0x10 * (b % 0x10) && p[3 * k + 2] == b / 0x10
  {
    if k > 0 {
      PackedBytes(es[2..], k - 1);
    }
  }

  /** A table that begins with packed entries has these entries. */
  lemma EntryOfTable(fat: seq<u8>, es: seq<u12>, c: nat)
    requires Pack(es) <= fat && c < |es|
    ensures Inside(fat, c) && Entry(fat, c) == es[c]
  {
    hide Pack, Bits;
    EntryOfPack(es, c);
  }

  lemma PairEntries(fat: seq<u8>, a: u12, b: u12)
    requires |fat| >= 2 && fat[..2] == PackPair(a, b)[..2]
    ensures Entry(fat, 0) == a
    ensures |fat| >= 3 && fat[2] == PackPair(a, b)[2] ==> Entry(fat, 1) == b
  {
    assert fat[0] == fat[..2][0] && fat[1] == fat[..2][1];
  }

  lemma EntryBehindPair(pair: seq<u8>, fat: seq<u8>, c: nat)
    requires |pair| == 3 && c >= 2 && Inside(fat, c - 2)
    ensures Inside(pair + fat, c) && Entry(pair + fat, c) == Entry(fat, c - 2)
  {
    hide Bits;
    ThreeBytesOn(c - 2);
    var at, all := (c - 2) * 3 / 2, pair + fat;
    assert all[at + 3] == fat[at] && all[at + 4] == fat[at + 1];
  }

  lemma ThreeBytesOn(c: nat)
    ensures (c + 2) * 3 / 2 == c * 3 / 2 + 3 && (c + 2) % 2 == c % 2
  {
  }

  /** Decoding inverts the packing, for every entry. */
  lemma {:induction false} EntryOfPack(es: seq<u12>, c: nat)
    requires c < |es|
    ensures Inside(Pack(es), c) && Entry(Pack(es), c) == es[c]
    decreases |es|
  {
    if |es| == 1 {
      PairEntries(Pack(es), es[0], 0);
    } else if c < 2 {
      PairEntries(Pack(es), es[0], es[1]);
    } else {
      EntryOfPack(es[2..], c - 2);
      EntryBehindPair(PackPair(es[0], es[1]), Pack(es[2..]), c);
    }
  }

  /** The two bytes of an entry after it is set to v. */
  function NewFirst(b0: u8, v: u12, low: bool): u8 {
    var x: int, w: int := b0, v;
    if low then w % 0x100 else x % 0x10 + 0x10 * (w % 0x10)
  }

  function NewSecond(b1: u8, v: u12, low: bool): u8 {
    var y: int, w: int := b1, v;
    if low then y / 0x10 * 0x10 + w / 0x100 else w / 0x10
  }

  /** The bytes decode to the new value, and the half that belongs to the neighbour is as before. */
  lemma NewBits(b0: u8, b1: u8, v: u12, low: bool, other: u8)
    ensures Bits(NewFirst(b0, v, low), NewSecond(b1, v, low), low) == v
    ensures low ==> Bits(NewSecond(b1, v, low), other, false) == Bits(b1, other, false)
    ensures !low ==> Bits(other, NewFirst(b0, v, low), true) == Bits(other, b0, true)
  {
    hide Bits, NewFirst, NewSecond;
    NewHalves(b0, b1, v, low);
    BitsOf(NewFirst(b0, v, low), NewSecond(b1, v, low));
    BitsOf(NewSecond(b1, v, low), other);
    BitsOf(b1, other);
    BitsOf(other, NewFirst(b0, v, low));
    BitsOf(other, b0);
  }

  /** The new bytes by halves. */
  lemma NewHalves(b0: u8, b1: u8, v: u12, low: bool)
    ensures var x: int, y: int, w: int := NewFirst(b0, v, low), NewSecond(b1, v, low), v;
      && (low ==> x + 0x100 * (y % 0x10) == w && y / 0x10 == b1 as int / 0x10)
      && (!low ==> x / 0x10 + 0x10 * y == w && x % 0x10 == b0 as int % 0x10)
  {
    var w: int, y: int := v, b1;
    if low {
      Halves(y / 0x10, w / 0x100);
    } else {
      var x: int := b0;
      Halves(w % 0x10, x % 0x10);
    }
  }

  lemma Halves(high: int, low: int)
    requires 0 <= low < 0x10
    ensures (high * 0x10 + low) / 0x10 == high && (high * 0x10 + low) % 0x10 == low
  {
  }

  /** The table with entry c replaced, leaving the four bits of its neighbour in the shared byte. */
  function Patched(fat: seq<u8>, c: nat, v: u12): (r: seq<u8>)
    requires Inside(fat, c)
    ensures |r| == |fat|
  {
    var i := c * 3 / 2;
    fat[i := NewFirst(fat[i], v, c % 2 == 0)][i + 1 := NewSecond(fat[i + 1], v, c % 2 == 0)]
  }

  /** The bytes of two entries overlap only for neighbours that share three bytes. */
  lemma EntryBytes(c: nat, d: nat)
    requires c < d
    ensures c * 3 / 2 + 1 <= d * 3 / 2
    ensures c * 3 / 2 + 1 == d * 3 / 2 <==> c % 2 == 0 && d == c + 1
  {
    HalfOfThree(c);
    HalfOfThree(d);
  }

  lemma HalfOfThree(c: nat)
    ensures c * 3 / 2 == c + c / 2
  {
  }

  /** Changing one entry changes no other. */
  lemma EntryOfPatched(fat: seq<u8>, c: nat, v: u12, d: nat)
    requires Inside(fat, c) && Inside(fat, d)
    ensures Entry(Patched(fat, c, v), d) == if d == c then v else Entry(fat, d)
  {
    hide Bits, NewFirst, NewSecond;
    var i, j := c * 3 / 2, d * 3 / 2;
    if d < c {
      EntryBytes(d, c);
      NewBits(fat[i], fat[i + 1], v, c % 2 == 0, fat[j]);
    } else if d > c {
      EntryBytes(c, d);
      NewBits(fat[i], fat[i + 1], v, c % 2 == 0, fat[j + 1]);
    } else {
      NewBits(fat[i], fat[i + 1], v, c % 2 == 0, 0);
    }
  }

  lemma PatchedBehindPair(pair: seq<u8>, fat: seq<u8>, c: nat, v: u12)
    requires |pair| == 3 && c >= 2 && Inside(fat, c - 2)
    ensures Inside(pair + fat, c) && Patched(pair + fat, c, v) == pair + Patched(fat, c - 2, v)
  {
    hide NewFirst, NewSecond;
    assert c * 3 / 2 == (c - 2) * 3 / 2 + 3 && (c - 2) % 2 == c % 2;
  }

  lemma PatchedPair(a: u12, b: u12, v: u12)
    ensures Patched(PackPair(a, b), 0, v) == PackPair(v, b) && Patched(PackPair(a, b), 1, v) == PackPair(a, v)
    ensures Patched(PackPair(a, 0)[..2], 0, v) == PackPair(v, 0)[..2]
  {
    hide NewFirst, NewSecond, PackPair;
    PatchedBytes(a, b, v);
    PatchedBytes(a, 0, v);
    var p, q := PackPair(a, 0), PackPair(v, 0);
    assert p[..2][0] == p[0] && p[..2][1] == p[1] && q[..2][0] == q[0] && q[..2][1] == q[1];
  }

  lemma PatchedBytes(a: u12, b: u12, v: u12)
    ensures var p := PackPair(a, b);
      && NewFirst(p[0], v, true) == PackPair(v, b)[0] && NewSecond(p[1], v, true) == PackPair(v, b)[1]
        && p[2] == PackPair(v, b)[2]
      && p[0] == PackPair(a, v)[0] && NewFirst(p[1], v, false) == PackPair(a, v)[1]
        && NewSecond(p[2], v, false) == PackPair(a, v)[2]
  {
  }

  lemma PatchedInFront(pair: seq<u8>, fat: seq<u8>, c: nat, v: u12)
    requires |pair| == 3 && c < 2
    ensures Patched(pair + fat, c, v) == Patched(pair, c, v) + fat
  {
    hide NewFirst, NewSecond;
  }

  /** Patching a packed table gives the packed table of the changed entries. */
  lemma {:induction false} PatchedPack(es: seq<u12>, c: nat, v: u12)
    requires c < |es|
    ensures Inside(Pack(es), c) && Patched(Pack(es), c, v) == Pack(es[c := v])
    decreases |es|
  {
    hide PackPair, Patched;
    if |es| == 1 {
      PatchedPair(es[0], 0, v);
    } else {
      var p := PackPair(es[0], es[1]);
      if c >= 2 {
        PatchedPack(es[2..], c - 2, v);
        assert es[c := v][2..] == es[2..][c - 2 := v];
        PatchedBehindPair(p, Pack(es[2..]), c, v);
      } else {
        assert es[c := v][2..] == es[2..];
        PatchedPair(es[0], es[1], v);
        PatchedInFront(p, Pack(es[2..]), c, v);
      }
    }
  }
}
